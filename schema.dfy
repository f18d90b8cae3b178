/** The five tables of the ESP parts store and the records its operations
    return. Each table is a map from its primary key to the rest of its row
    (the link table `esp_assemblies` has nothing but its key, so it is a set). */
module Schema {

  datatype Option<T> = None | Some(value: T)

  /** A `parts` row without its key `part_number`. */
  datatype Part = Part(
    name: string,
    category: string,
    material: string,
    weightKg: real,
    isCritical: bool,
    uom: string)

  /** The non-key columns of an `assembly_parts` row. */
  datatype Link = Link(quantity: int, bomLevel: int)

  /** An `esp_units` row without its key `esp_id`. */
  datatype UnitSpec = UnitSpec(
    modelName: string,
    series: string,
    powerRatingKw: real,
    voltageV: int,
    frequencyHz: real,
    flowRateM3d: real,
    stages: int,
    cableLengthM: real)

  /** The whole store, keyed as the schema's primary keys are. */
  datatype Tables = Tables(
    parts: map<string, Part>,
    assemblies: map<string, string>,
    assemblyParts: map<(string, string), Link>,
    espUnits: map<string, UnitSpec>,
    espAssemblies: set<(string, string)>)

  /** Column defaults: `uom` is 'ea'; a new link has quantity 1 and bom_level 1. */
  const DefaultUom: string := "ea"
  const DefaultLink: Link := Link(1, 1)

  /** A row of `parts` as the getters return it (`SELECT *`). */
  datatype PartRow = PartRow(partNumber: string, part: Part)

  /** A part joined with its link row: `p.*, ap.quantity, ap.bom_level`. */
  datatype BomLine = BomLine(partNumber: string, part: Part, quantity: int, bomLevel: int)

  datatype AssemblyRow = AssemblyRow(assemblyCode: string, name: string)

  /** `get_assembly`: the assembly row with its resolved parts. */
  datatype AssemblyView = AssemblyView(assemblyCode: string, name: string, parts: seq<BomLine>)

  datatype EspRow = EspRow(espId: string, spec: UnitSpec)

  /** `get_esp_assemblies`: a unit with its assemblies but no parts. */
  datatype EspShallowView = EspShallowView(espId: string, spec: UnitSpec, assemblies: seq<AssemblyRow>)

  /** `get_esp`: a unit, its resolved assemblies and the flattened BOM. */
  datatype EspView = EspView(espId: string, spec: UnitSpec, assemblies: seq<AssemblyView>, bomParts: seq<BomLine>)

  /** The `ValueError`s the store raises. */
  datatype DbError =
    | DuplicateKey(key: string)
    | MissingReference(key: string)
    | DuplicateLink(owner: string, member: string)
    | InvalidQuantity(quantity: int)

  /** What an operation gives back: a value, `None` (not found), or a raised error. */
  datatype Outcome<T> = Ok(value: T) | NotFound | Raised(error: DbError)

  /** The optional keyword arguments of `update_part`; `None` leaves a column alone. */
  datatype PartPatch = PartPatch(
    name: Option<string>,
    category: Option<string>,
    material: Option<string>,
    weightKg: Option<real>,
    isCritical: Option<bool>)

  /** The optional keyword arguments of `update_esp`. */
  datatype UnitPatch = UnitPatch(
    modelName: Option<string>,
    series: Option<string>,
    powerRatingKw: Option<real>,
    voltageV: Option<int>,
    frequencyHz: Option<real>,
    flowRateM3d: Option<real>,
    stages: Option<int>,
    cableLengthM: Option<real>)

  function Or<T>(given: Option<T>, current: T): T
  {
    if given.Some? then given.value else current
  }

  predicate IsEmptyPartPatch(d: PartPatch)
  {
    d.name.None? && d.category.None? && d.material.None? && d.weightKg.None? && d.isCritical.None?
  }

  predicate IsEmptyUnitPatch(d: UnitPatch)
  {
    && d.modelName.None? && d.series.None? && d.powerRatingKw.None? && d.voltageV.None?
    && d.frequencyHz.None? && d.flowRateM3d.None? && d.stages.None? && d.cableLengthM.None?
  }

  /** The `UPDATE parts SET ...` built from the non-None arguments. */
  function ApplyPartPatch(p: Part, d: PartPatch): (q: Part)
    ensures IsEmptyPartPatch(d) ==> q == p
    ensures q.uom == p.uom
    ensures d.name.Some? ==> q.name == d.name.value
    ensures d.name.None? ==> q.name == p.name
    ensures d.category.Some? ==> q.category == d.category.value
    ensures d.category.None? ==> q.category == p.category
    ensures d.material.Some? ==> q.material == d.material.value
    ensures d.material.None? ==> q.material == p.material
    ensures d.weightKg.Some? ==> q.weightKg == d.weightKg.value
    ensures d.weightKg.None? ==> q.weightKg == p.weightKg
    ensures d.isCritical.Some? ==> q.isCritical == d.isCritical.value
    ensures d.isCritical.None? ==> q.isCritical == p.isCritical
  {
    Part(Or(d.name, p.name), Or(d.category, p.category), Or(d.material, p.material),
         Or(d.weightKg, p.weightKg), Or(d.isCritical, p.isCritical), p.uom)
  }

  /** The `UPDATE esp_units SET ...` built from the non-None arguments. */
  function ApplyUnitPatch(u: UnitSpec, d: UnitPatch): (v: UnitSpec)
    ensures IsEmptyUnitPatch(d) ==> v == u
    ensures d.modelName.Some? ==> v.modelName == d.modelName.value
    ensures d.modelName.None? ==> v.modelName == u.modelName
    ensures d.series.Some? ==> v.series == d.series.value
    ensures d.series.None? ==> v.series == u.series
    ensures d.powerRatingKw.Some? ==> v.powerRatingKw == d.powerRatingKw.value
    ensures d.powerRatingKw.None? ==> v.powerRatingKw == u.powerRatingKw
    ensures d.voltageV.Some? ==> v.voltageV == d.voltageV.value
    ensures d.voltageV.None? ==> v.voltageV == u.voltageV
    ensures d.frequencyHz.Some? ==> v.frequencyHz == d.frequencyHz.value
    ensures d.frequencyHz.None? ==> v.frequencyHz == u.frequencyHz
    ensures d.flowRateM3d.Some? ==> v.flowRateM3d == d.flowRateM3d.value
    ensures d.flowRateM3d.None? ==> v.flowRateM3d == u.flowRateM3d
    ensures d.stages.Some? ==> v.stages == d.stages.value
    ensures d.stages.None? ==> v.stages == u.stages
    ensures d.cableLengthM.Some? ==> v.cableLengthM == d.cableLengthM.value
    ensures d.cableLengthM.None? ==> v.cableLengthM == u.cableLengthM
  {
    UnitSpec(Or(d.modelName, u.modelName), Or(d.series, u.series), Or(d.powerRatingKw, u.powerRatingKw),
             Or(d.voltageV, u.voltageV), Or(d.frequencyHz, u.frequencyHz), Or(d.flowRateM3d, u.flowRateM3d),
             Or(d.stages, u.stages), Or(d.cableLengthM, u.cableLengthM))
  }

  /** A patch applied twice changes nothing the first application did not. */
  lemma PartPatchIdempotent(p: Part, d: PartPatch)
    ensures ApplyPartPatch(ApplyPartPatch(p, d), d) == ApplyPartPatch(p, d)
  {
  }

  lemma UnitPatchIdempotent(u: UnitSpec, d: UnitPatch)
    ensures ApplyUnitPatch(ApplyUnitPatch(u, d), d) == ApplyUnitPatch(u, d)
  {
  }

  /** Every link's quantity is a positive integer. */
  ghost predicate PositiveQuantities(t: Tables)
  {
    forall k :: k in t.assemblyParts ==> t.assemblyParts[k].quantity >= 1
  }

  /** Referential integrity as the schema's FOREIGN KEY clauses declare it:
      every link row names an existing owner and an existing member. SQLite
      does not enforce these clauses unless foreign keys are switched on,
      which the store never does, so this holds only as long as the plain
      deletes are not used on referenced rows. */
  ghost predicate Consistent(t: Tables)
  {
    && (forall k :: k in t.assemblyParts ==> k.0 in t.assemblies && k.1 in t.parts)
    && (forall k :: k in t.espAssemblies ==> k.0 in t.espUnits && k.1 in t.assemblies)
  }

  /** The index of the first element of `keys` that `m` lacks, if any: the
      check-then-insert loop of `create_assembly` and `create_esp` stops there. */
  function FirstAbsent<V>(keys: seq<string>, m: map<string, V>): (r: Option<nat>)
    ensures r.None? <==> forall i :: 0 <= i < |keys| ==> keys[i] in m
    ensures r.Some? ==> r.value < |keys| && keys[r.value] !in m
    ensures r.Some? ==> forall j :: 0 <= j < r.value ==> keys[j] in m
  {
    if keys == [] then None
    else if keys[0] !in m then Some(0)
    else
      match FirstAbsent(keys[1..], m)
      case None => None
      case Some(k) => Some(k + 1)
  }

  /** A key that `m` lacks, preceded only by keys it has, is the first absent one. */
  lemma {:induction false} FirstAbsentAt<V>(keys: seq<string>, m: map<string, V>, i: nat)
    requires i < |keys| && keys[i] !in m
    requires forall j :: 0 <= j < i ==> keys[j] in m
    ensures FirstAbsent(keys, m) == Some(i)
  {
    if i > 0 {
      FirstAbsentAt(keys[1..], m, i - 1);
    }
  }

  predicate NoDuplicates(keys: seq<string>)
  {
    forall i, j :: 0 <= i < j < |keys| ==> keys[i] != keys[j]
  }
}
