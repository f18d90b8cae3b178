/** The store's mutating operations as functions from the tables before the
    call to the tables after it and the value the call returns. A call that
    raises leaves the tables as they were: each operation either commits once
    at its end or rolls back before raising. */
module Transitions {
  import opened Ordering
  import opened Schema
  import opened Bom
  import opened Queries

  datatype Step<T> = Step(after: Tables, out: T)

  /** `b` is `a` with at most the entry for `k` changed, added or removed. */
  ghost predicate AgreeExcept<K(!new), V>(a: map<K, V>, b: map<K, V>, k: K)
  {
    forall j :: j != k ==> (j in a <==> j in b) && (j in a ==> a[j] == b[j])
  }

  // ---- parts ----

  /** `create_part`: refuses an existing part number; otherwise inserts the
      part with the default unit of measure and returns it. */
  function CreatePart(t: Tables, partNumber: string, name: string, category: string, material: string,
                      weightKg: real, isCritical: bool): (r: Step<Outcome<PartRow>>)
    ensures partNumber in t.parts ==> r.after == t && r.out == Raised(DuplicateKey(partNumber))
    ensures partNumber !in t.parts ==>
              && r.out == Ok(PartRow(partNumber, Part(name, category, material, weightKg, isCritical, DefaultUom)))
              && GetPart(r.after, partNumber) == Some(r.out.value)
              && AgreeExcept(t.parts, r.after.parts, partNumber)
              && r.after == t.(parts := r.after.parts)
  {
    if partNumber in t.parts then Step(t, Raised(DuplicateKey(partNumber)))
    else
      var p := Part(name, category, material, weightKg, isCritical, DefaultUom);
      Step(t.(parts := t.parts[partNumber := p]), Ok(PartRow(partNumber, p)))
  }

  /** `update_part`: None for a missing part; otherwise sets the given columns
      (none given: nothing changes) and returns the part as it now is. */
  function UpdatePart(t: Tables, partNumber: string, d: PartPatch): (r: Step<Option<PartRow>>)
    ensures partNumber !in t.parts ==> r.after == t && r.out == None
    ensures partNumber in t.parts ==>
              && partNumber in r.after.parts
              && r.out == GetPart(r.after, partNumber)
              && r.out.value.part == ApplyPartPatch(t.parts[partNumber], d)
              && AgreeExcept(t.parts, r.after.parts, partNumber)
              && r.after == t.(parts := r.after.parts)
    ensures IsEmptyPartPatch(d) ==> r.after == t && r.out == GetPart(t, partNumber)
  {
    if partNumber !in t.parts then Step(t, None)
    else if IsEmptyPartPatch(d) then Step(t, GetPart(t, partNumber))
    else
      var u := t.(parts := t.parts[partNumber := ApplyPartPatch(t.parts[partNumber], d)]);
      Step(u, GetPart(u, partNumber))
  }

  /** `delete_part`: removes the part row alone and says whether there was
      one. Link rows that name the part stay behind. */
  function DeletePart(t: Tables, partNumber: string): (r: Step<bool>)
    ensures r.out <==> partNumber in t.parts
    ensures partNumber !in r.after.parts
    ensures AgreeExcept(t.parts, r.after.parts, partNumber)
    ensures r.after == t.(parts := r.after.parts)
  {
    Step(t.(parts := t.parts - {partNumber}), partNumber in t.parts)
  }

  /** `force_delete_part`: false for a missing part; otherwise removes every
      link row naming the part, then the part. */
  function ForceDeletePart(t: Tables, partNumber: string): (r: Step<bool>)
    ensures r.out <==> partNumber in t.parts
    ensures !r.out ==> r.after == t
    ensures r.out ==>
              && partNumber !in r.after.parts
              && AgreeExcept(t.parts, r.after.parts, partNumber)
              && (forall k :: k in r.after.assemblyParts <==> k in t.assemblyParts && k.1 != partNumber)
              && (forall k :: k in r.after.assemblyParts ==> r.after.assemblyParts[k] == t.assemblyParts[k])
              && r.after == t.(parts := r.after.parts, assemblyParts := r.after.assemblyParts)
  {
    if partNumber !in t.parts then Step(t, false)
    else
      var links := map k | k in t.assemblyParts && k.1 != partNumber :: t.assemblyParts[k];
      Step(t.(parts := t.parts - {partNumber}, assemblyParts := links), true)
  }

  // ---- assemblies ----

  /** The link rows `create_assembly` inserts one by one, each with the
      default quantity and BOM level. */
  function LinkAll(links: map<(string, string), Link>, code: string, partNumbers: seq<string>)
    : (r: map<(string, string), Link>)
    ensures forall k :: k in r <==> k in links || (k.0 == code && k.1 in partNumbers)
    ensures forall k :: k in r ==> r[k] == if k.0 == code && k.1 in partNumbers then DefaultLink else links[k]
  {
    if partNumbers == [] then links
    else
      var init := partNumbers[..|partNumbers| - 1];
      var last := partNumbers[|partNumbers| - 1];
      assert partNumbers == init + [last];
      LinkAll(links, code, init)[(code, last) := DefaultLink]
  }

  /** How many leading entries of `keys` the check-then-insert loop inserts:
      all of them, or those before the first one `m` lacks. */
  function Inserted<V>(keys: seq<string>, m: map<string, V>): (k: nat)
    ensures k <= |keys|
    ensures forall j :: 0 <= j < k ==> keys[j] in m
    ensures k == |keys| <==> FirstAbsent(keys, m).None?
    ensures FirstAbsent(keys, m).Some? ==> k == FirstAbsent(keys, m).value
  {
    match FirstAbsent(keys, m)
    case Some(i) => i
    case None => |keys|
  }

  /** What `create_assembly` asks of its caller: when the code is new, among
      the part numbers the loop reaches before it stops at a missing one, none
      is listed twice and none has a link row for the code left over from an
      earlier assembly of that code (either would make an insert violate the
      primary key of `assembly_parts`). */
  predicate CanLinkParts(t: Tables, code: string, partNumbers: seq<string>)
  {
    var k := Inserted(partNumbers, t.parts);
    code !in t.assemblies ==>
      NoDuplicates(partNumbers[..k]) && forall i :: 0 <= i < k ==> (code, partNumbers[i]) !in t.assemblyParts
  }

  /** `create_assembly`: refuses an existing code, then refuses (rolling the
      new row back) at the first listed part that does not exist; otherwise
      inserts the assembly with one default link per listed part and returns
      it with its parts. */
  function CreateAssembly(t: Tables, code: string, name: string, partNumbers: seq<string>)
    : (r: Step<Outcome<AssemblyView>>)
    requires CanLinkParts(t, code, partNumbers)
    ensures code in t.assemblies ==> r.after == t && r.out == Raised(DuplicateKey(code))
    ensures code !in t.assemblies && FirstAbsent(partNumbers, t.parts).Some? ==>
              r.after == t && r.out == Raised(MissingReference(partNumbers[FirstAbsent(partNumbers, t.parts).value]))
    ensures r.out.Ok? <==> code !in t.assemblies && FirstAbsent(partNumbers, t.parts).None?
    ensures r.out.Ok? ==>
              && GetAssembly(r.after, code) == Some(r.out.value)
              && r.out.value.name == name
              && AgreeExcept(t.assemblies, r.after.assemblies, code)
              && (forall k :: k in r.after.assemblyParts <==> k in t.assemblyParts || (k.0 == code && k.1 in partNumbers))
              && (forall pn :: pn in partNumbers ==> r.after.assemblyParts[(code, pn)] == DefaultLink)
              && (forall k :: k in t.assemblyParts ==> r.after.assemblyParts[k] == t.assemblyParts[k])
              && r.after == t.(assemblies := r.after.assemblies, assemblyParts := r.after.assemblyParts)
  {
    if code in t.assemblies then Step(t, Raised(DuplicateKey(code)))
    else
      match FirstAbsent(partNumbers, t.parts)
      case Some(i) => Step(t, Raised(MissingReference(partNumbers[i])))
      case None =>
        assert forall pn :: pn in partNumbers ==> pn in t.parts;
        var u := t.(assemblies := t.assemblies[code := name],
                    assemblyParts := LinkAll(t.assemblyParts, code, partNumbers));
        Step(u, Ok(ViewOf(u, code)))
  }

  /** `update_assembly`: None for a missing assembly; otherwise renames it when
      a name is given and returns it with its parts. */
  function UpdateAssembly(t: Tables, code: string, name: Option<string>): (r: Step<Option<AssemblyView>>)
    ensures code !in t.assemblies ==> r.after == t && r.out == None
    ensures code in t.assemblies ==>
              && code in r.after.assemblies
              && r.out == GetAssembly(r.after, code)
              && r.after.assemblies[code] == Or(name, t.assemblies[code])
              && AgreeExcept(t.assemblies, r.after.assemblies, code)
              && r.after == t.(assemblies := r.after.assemblies)
    ensures name.None? ==> r.after == t
  {
    if code !in t.assemblies then Step(t, None)
    else
      var u := if name.Some? then t.(assemblies := t.assemblies[code := name.value]) else t;
      Step(u, GetAssembly(u, code))
  }

  /** `delete_assembly`: removes the assembly row alone and says whether there
      was one. Link rows naming it, in either link table, stay behind. */
  function DeleteAssembly(t: Tables, code: string): (r: Step<bool>)
    ensures r.out <==> code in t.assemblies
    ensures code !in r.after.assemblies
    ensures AgreeExcept(t.assemblies, r.after.assemblies, code)
    ensures r.after == t.(assemblies := r.after.assemblies)
  {
    Step(t.(assemblies := t.assemblies - {code}), code in t.assemblies)
  }

  /** `force_delete_assembly`: false for a missing assembly; otherwise removes
      the unit links to it, its part links, then the assembly. */
  function ForceDeleteAssembly(t: Tables, code: string): (r: Step<bool>)
    ensures r.out <==> code in t.assemblies
    ensures !r.out ==> r.after == t
    ensures r.out ==>
              && code !in r.after.assemblies
              && AgreeExcept(t.assemblies, r.after.assemblies, code)
              && (forall k :: k in r.after.espAssemblies <==> k in t.espAssemblies && k.1 != code)
              && (forall k :: k in r.after.assemblyParts <==> k in t.assemblyParts && k.0 != code)
              && (forall k :: k in r.after.assemblyParts ==> r.after.assemblyParts[k] == t.assemblyParts[k])
              && r.after.parts == t.parts && r.after.espUnits == t.espUnits
  {
    if code !in t.assemblies then Step(t, false)
    else
      var units := set k | k in t.espAssemblies && k.1 != code;
      var links := map k | k in t.assemblyParts && k.0 != code :: t.assemblyParts[k];
      Step(t.(espAssemblies := units, assemblyParts := links, assemblies := t.assemblies - {code}), true)
  }

  // ---- the parts of an assembly ----

  /** `add_part_to_assembly`: None when the assembly or the part is missing;
      refuses a part already linked; otherwise adds a default link and returns
      the assembly with its parts. */
  function AddPartToAssembly(t: Tables, code: string, partNumber: string): (r: Step<Outcome<AssemblyView>>)
    ensures code !in t.assemblies || partNumber !in t.parts ==> r.after == t && r.out == NotFound
    ensures code in t.assemblies && partNumber in t.parts && (code, partNumber) in t.assemblyParts ==>
              r.after == t && r.out == Raised(DuplicateLink(code, partNumber))
    ensures r.out.Ok? <==> code in t.assemblies && partNumber in t.parts && (code, partNumber) !in t.assemblyParts
    ensures r.out.Ok? ==>
              && GetAssembly(r.after, code) == Some(r.out.value)
              && r.after.assemblyParts == t.assemblyParts[(code, partNumber) := DefaultLink]
              && r.after == t.(assemblyParts := r.after.assemblyParts)
  {
    if code !in t.assemblies || partNumber !in t.parts then Step(t, NotFound)
    else if (code, partNumber) in t.assemblyParts then Step(t, Raised(DuplicateLink(code, partNumber)))
    else
      var u := t.(assemblyParts := t.assemblyParts[(code, partNumber) := DefaultLink]);
      Step(u, Ok(ViewOf(u, code)))
  }

  /** `remove_part_from_assembly`: None for a missing assembly; otherwise
      deletes the link if there is one and returns the assembly. */
  function RemovePartFromAssembly(t: Tables, code: string, partNumber: string): (r: Step<Option<AssemblyView>>)
    ensures code !in t.assemblies ==> r.after == t && r.out == None
    ensures code in t.assemblies ==>
              && r.out == GetAssembly(r.after, code)
              && (code, partNumber) !in r.after.assemblyParts
              && AgreeExcept(t.assemblyParts, r.after.assemblyParts, (code, partNumber))
              && r.after == t.(assemblyParts := r.after.assemblyParts)
  {
    if code !in t.assemblies then Step(t, None)
    else
      var u := t.(assemblyParts := t.assemblyParts - {(code, partNumber)});
      Step(u, GetAssembly(u, code))
  }

  /** `update_assembly_part_quantity`: refuses a quantity below 1 before
      anything else; None when the assembly or the link is missing; otherwise
      sets the link's quantity, keeping its BOM level. */
  function UpdateAssemblyPartQuantity(t: Tables, code: string, partNumber: string, quantity: int)
    : (r: Step<Outcome<AssemblyView>>)
    ensures quantity < 1 ==> r.after == t && r.out == Raised(InvalidQuantity(quantity))
    ensures quantity >= 1 && (code !in t.assemblies || (code, partNumber) !in t.assemblyParts) ==>
              r.after == t && r.out == NotFound
    ensures r.out.Ok? <==> quantity >= 1 && code in t.assemblies && (code, partNumber) in t.assemblyParts
    ensures r.out.Ok? ==>
              && GetAssembly(r.after, code) == Some(r.out.value)
              && (code, partNumber) in r.after.assemblyParts
              && r.after.assemblyParts[(code, partNumber)]
                 == Link(quantity, t.assemblyParts[(code, partNumber)].bomLevel)
              && AgreeExcept(t.assemblyParts, r.after.assemblyParts, (code, partNumber))
              && r.after == t.(assemblyParts := r.after.assemblyParts)
  {
    if quantity < 1 then Step(t, Raised(InvalidQuantity(quantity)))
    else if code !in t.assemblies || (code, partNumber) !in t.assemblyParts then Step(t, NotFound)
    else
      var old_ := t.assemblyParts[(code, partNumber)];
      var u := t.(assemblyParts := t.assemblyParts[(code, partNumber) := Link(quantity, old_.bomLevel)]);
      Step(u, Ok(ViewOf(u, code)))
  }

  // ---- units ----

  /** What `create_esp` asks of its caller when the id is new: among the
      codes the loop reaches before it stops at a missing one, none is listed
      twice and none has a link row for the id left over from an earlier unit
      of that id. */
  predicate CanLinkAssemblies(t: Tables, espId: string, codes: seq<string>)
  {
    var k := Inserted(codes, t.assemblies);
    espId !in t.espUnits ==>
      NoDuplicates(codes[..k]) && forall i :: 0 <= i < k ==> (espId, codes[i]) !in t.espAssemblies
  }

  function LinkSet(espId: string, codes: seq<string>): (s: set<(string, string)>)
    ensures forall k :: k in s <==> k.0 == espId && k.1 in codes
  {
    set c | c in codes :: (espId, c)
  }

  /** `create_esp`: refuses an existing id, then refuses (rolling the new row
      back) at the first listed assembly that does not exist; otherwise
      inserts the unit linked to every listed assembly and returns it. */
  function CreateEsp(t: Tables, espId: string, spec: UnitSpec, codes: seq<string>): (r: Step<Outcome<EspView>>)
    requires CanLinkAssemblies(t, espId, codes)
    ensures espId in t.espUnits ==> r.after == t && r.out == Raised(DuplicateKey(espId))
    ensures espId !in t.espUnits && FirstAbsent(codes, t.assemblies).Some? ==>
              r.after == t && r.out == Raised(MissingReference(codes[FirstAbsent(codes, t.assemblies).value]))
    ensures r.out.Ok? <==> espId !in t.espUnits && FirstAbsent(codes, t.assemblies).None?
    ensures r.out.Ok? ==>
              && GetEsp(r.after, espId) == Some(r.out.value)
              && r.out.value.spec == spec
              && AgreeExcept(t.espUnits, r.after.espUnits, espId)
              && (forall k :: k in r.after.espAssemblies <==> k in t.espAssemblies || (k.0 == espId && k.1 in codes))
              && r.after == t.(espUnits := r.after.espUnits, espAssemblies := r.after.espAssemblies)
  {
    if espId in t.espUnits then Step(t, Raised(DuplicateKey(espId)))
    else
      match FirstAbsent(codes, t.assemblies)
      case Some(i) => Step(t, Raised(MissingReference(codes[i])))
      case None =>
        assert forall c :: c in codes ==> c in t.assemblies;
        var u := t.(espUnits := t.espUnits[espId := spec], espAssemblies := t.espAssemblies + LinkSet(espId, codes));
        Step(u, Ok(GetEsp(u, espId).value))
  }

  /** `update_esp`: None for a missing unit; otherwise sets the given columns
      (none given: nothing changes) and returns the unit with its BOM. */
  function UpdateEsp(t: Tables, espId: string, d: UnitPatch): (r: Step<Option<EspView>>)
    ensures espId !in t.espUnits ==> r.after == t && r.out == None
    ensures espId in t.espUnits ==>
              && espId in r.after.espUnits
              && r.out == GetEsp(r.after, espId)
              && r.after.espUnits[espId] == ApplyUnitPatch(t.espUnits[espId], d)
              && AgreeExcept(t.espUnits, r.after.espUnits, espId)
              && r.after == t.(espUnits := r.after.espUnits)
    ensures IsEmptyUnitPatch(d) ==> r.after == t
  {
    if espId !in t.espUnits then Step(t, None)
    else if IsEmptyUnitPatch(d) then Step(t, GetEsp(t, espId))
    else
      var u := t.(espUnits := t.espUnits[espId := ApplyUnitPatch(t.espUnits[espId], d)]);
      Step(u, GetEsp(u, espId))
  }

  /** `delete_esp`: removes the unit row alone and says whether there was one.
      Its links to assemblies stay behind. */
  function DeleteEsp(t: Tables, espId: string): (r: Step<bool>)
    ensures r.out <==> espId in t.espUnits
    ensures espId !in r.after.espUnits
    ensures AgreeExcept(t.espUnits, r.after.espUnits, espId)
    ensures r.after == t.(espUnits := r.after.espUnits)
  {
    Step(t.(espUnits := t.espUnits - {espId}), espId in t.espUnits)
  }

  /** `add_assembly_to_esp`: None when the unit or the assembly is missing;
      refuses an assembly already linked; otherwise links it and returns the
      unit with its BOM. */
  function AddAssemblyToEsp(t: Tables, espId: string, code: string): (r: Step<Outcome<EspView>>)
    ensures espId !in t.espUnits || code !in t.assemblies ==> r.after == t && r.out == NotFound
    ensures espId in t.espUnits && code in t.assemblies && (espId, code) in t.espAssemblies ==>
              r.after == t && r.out == Raised(DuplicateLink(espId, code))
    ensures r.out.Ok? <==> espId in t.espUnits && code in t.assemblies && (espId, code) !in t.espAssemblies
    ensures r.out.Ok? ==>
              && GetEsp(r.after, espId) == Some(r.out.value)
              && r.after.espAssemblies == t.espAssemblies + {(espId, code)}
              && r.after == t.(espAssemblies := r.after.espAssemblies)
  {
    if espId !in t.espUnits || code !in t.assemblies then Step(t, NotFound)
    else if (espId, code) in t.espAssemblies then Step(t, Raised(DuplicateLink(espId, code)))
    else
      var u := t.(espAssemblies := t.espAssemblies + {(espId, code)});
      Step(u, Ok(GetEsp(u, espId).value))
  }

  /** `remove_assembly_from_esp`: None for a missing unit; otherwise deletes
      the link if there is one and returns the unit with its BOM. */
  function RemoveAssemblyFromEsp(t: Tables, espId: string, code: string): (r: Step<Option<EspView>>)
    ensures espId !in t.espUnits ==> r.after == t && r.out == None
    ensures espId in t.espUnits ==>
              && r.out == GetEsp(r.after, espId)
              && r.after.espAssemblies == t.espAssemblies - {(espId, code)}
              && r.after == t.(espAssemblies := r.after.espAssemblies)
  {
    if espId !in t.espUnits then Step(t, None)
    else
      var u := t.(espAssemblies := t.espAssemblies - {(espId, code)});
      Step(u, GetEsp(u, espId))
  }

  // ---- the invariants each operation keeps ----

  /** The operations that insert or delete link rows keep every link row
      pointing at an existing owner and an existing member, and every link
      quantity positive. The plain deletes keep only the latter; see
      `Findings` for the former. */
  lemma CreatePartInvariants(t: Tables, partNumber: string, name: string, category: string, material: string,
                             weightKg: real, isCritical: bool)
    ensures var r := CreatePart(t, partNumber, name, category, material, weightKg, isCritical);
      (Consistent(t) ==> Consistent(r.after)) && (PositiveQuantities(t) ==> PositiveQuantities(r.after))
  {
  }

  lemma UpdatePartInvariants(t: Tables, partNumber: string, d: PartPatch)
    ensures var r := UpdatePart(t, partNumber, d);
      (Consistent(t) ==> Consistent(r.after)) && (PositiveQuantities(t) ==> PositiveQuantities(r.after))
  {
  }

  lemma DeletePartInvariants(t: Tables, partNumber: string)
    ensures PositiveQuantities(t) ==> PositiveQuantities(DeletePart(t, partNumber).after)
  {
  }

  lemma ForceDeletePartInvariants(t: Tables, partNumber: string)
    ensures var r := ForceDeletePart(t, partNumber);
      (Consistent(t) ==> Consistent(r.after)) && (PositiveQuantities(t) ==> PositiveQuantities(r.after))
  {
  }

  lemma CreateAssemblyInvariants(t: Tables, code: string, name: string, partNumbers: seq<string>)
    requires CanLinkParts(t, code, partNumbers)
    ensures var r := CreateAssembly(t, code, name, partNumbers);
      (Consistent(t) ==> Consistent(r.after)) && (PositiveQuantities(t) ==> PositiveQuantities(r.after))
  {
  }

  lemma UpdateAssemblyInvariants(t: Tables, code: string, name: Option<string>)
    ensures var r := UpdateAssembly(t, code, name);
      (Consistent(t) ==> Consistent(r.after)) && (PositiveQuantities(t) ==> PositiveQuantities(r.after))
  {
  }

  lemma DeleteAssemblyInvariants(t: Tables, code: string)
    ensures PositiveQuantities(t) ==> PositiveQuantities(DeleteAssembly(t, code).after)
  {
  }

  lemma ForceDeleteAssemblyInvariants(t: Tables, code: string)
    ensures var r := ForceDeleteAssembly(t, code);
      (Consistent(t) ==> Consistent(r.after)) && (PositiveQuantities(t) ==> PositiveQuantities(r.after))
  {
  }

  lemma AddPartToAssemblyInvariants(t: Tables, code: string, partNumber: string)
    ensures var r := AddPartToAssembly(t, code, partNumber);
      (Consistent(t) ==> Consistent(r.after)) && (PositiveQuantities(t) ==> PositiveQuantities(r.after))
  {
  }

  lemma RemovePartFromAssemblyInvariants(t: Tables, code: string, partNumber: string)
    ensures var r := RemovePartFromAssembly(t, code, partNumber);
      (Consistent(t) ==> Consistent(r.after)) && (PositiveQuantities(t) ==> PositiveQuantities(r.after))
  {
  }

  lemma UpdateAssemblyPartQuantityInvariants(t: Tables, code: string, partNumber: string, quantity: int)
    ensures var r := UpdateAssemblyPartQuantity(t, code, partNumber, quantity);
      (Consistent(t) ==> Consistent(r.after)) && (PositiveQuantities(t) ==> PositiveQuantities(r.after))
  {
  }

  lemma CreateEspInvariants(t: Tables, espId: string, spec: UnitSpec, codes: seq<string>)
    requires CanLinkAssemblies(t, espId, codes)
    ensures var r := CreateEsp(t, espId, spec, codes);
      (Consistent(t) ==> Consistent(r.after)) && (PositiveQuantities(t) ==> PositiveQuantities(r.after))
  {
  }

  lemma UpdateEspInvariants(t: Tables, espId: string, d: UnitPatch)
    ensures var r := UpdateEsp(t, espId, d);
      (Consistent(t) ==> Consistent(r.after)) && (PositiveQuantities(t) ==> PositiveQuantities(r.after))
  {
  }

  lemma DeleteEspInvariants(t: Tables, espId: string)
    ensures PositiveQuantities(t) ==> PositiveQuantities(DeleteEsp(t, espId).after)
  {
  }

  lemma AddAssemblyToEspInvariants(t: Tables, espId: string, code: string)
    ensures var r := AddAssemblyToEsp(t, espId, code);
      (Consistent(t) ==> Consistent(r.after)) && (PositiveQuantities(t) ==> PositiveQuantities(r.after))
  {
  }

  lemma RemoveAssemblyFromEspInvariants(t: Tables, espId: string, code: string)
    ensures var r := RemoveAssemblyFromEsp(t, espId, code);
      (Consistent(t) ==> Consistent(r.after)) && (PositiveQuantities(t) ==> PositiveQuantities(r.after))
  {
  }

  // ---- how operations relate ----

  /** Removing a part just added to an assembly restores the store. */
  lemma AddThenRemovePart(t: Tables, code: string, partNumber: string)
    requires AddPartToAssembly(t, code, partNumber).out.Ok?
    ensures RemovePartFromAssembly(AddPartToAssembly(t, code, partNumber).after, code, partNumber).after == t
  {
    var u := AddPartToAssembly(t, code, partNumber).after;
    assert u.assemblyParts - {(code, partNumber)} == t.assemblyParts;
  }

  /** Removing a part from an assembly twice is removing it once. */
  lemma RemovePartTwice(t: Tables, code: string, partNumber: string)
    ensures var r := RemovePartFromAssembly(t, code, partNumber);
      RemovePartFromAssembly(r.after, code, partNumber) == r
  {
    var r := RemovePartFromAssembly(t, code, partNumber);
    if code in t.assemblies {
      assert r.after.assemblyParts - {(code, partNumber)} == r.after.assemblyParts;
    }
  }

  /** Unlinking an assembly just linked to a unit restores the store. */
  lemma AddThenRemoveAssembly(t: Tables, espId: string, code: string)
    requires AddAssemblyToEsp(t, espId, code).out.Ok?
    ensures RemoveAssemblyFromEsp(AddAssemblyToEsp(t, espId, code).after, espId, code).after == t
  {
    var u := AddAssemblyToEsp(t, espId, code).after;
    assert u.espAssemblies - {(espId, code)} == t.espAssemblies;
  }

  /** Unlinking an assembly from a unit twice is unlinking it once. */
  lemma RemoveAssemblyTwice(t: Tables, espId: string, code: string)
    ensures var r := RemoveAssemblyFromEsp(t, espId, code);
      RemoveAssemblyFromEsp(r.after, espId, code) == r
  {
    var r := RemoveAssemblyFromEsp(t, espId, code);
    if espId in t.espUnits {
      assert r.after.espAssemblies - {(espId, code)} == r.after.espAssemblies;
    }
  }

  /** Applying the same part update twice leaves what applying it once left. */
  lemma UpdatePartTwice(t: Tables, partNumber: string, d: PartPatch)
    ensures var r := UpdatePart(t, partNumber, d);
      UpdatePart(r.after, partNumber, d) == r
  {
    var r := UpdatePart(t, partNumber, d);
    if partNumber in t.parts && !IsEmptyPartPatch(d) {
      PartPatchIdempotent(t.parts[partNumber], d);
      assert r.after.parts[partNumber := ApplyPartPatch(r.after.parts[partNumber], d)] == r.after.parts;
    }
  }

  /** Applying the same unit update twice leaves what applying it once left. */
  lemma UpdateEspTwice(t: Tables, espId: string, d: UnitPatch)
    ensures var r := UpdateEsp(t, espId, d);
      UpdateEsp(r.after, espId, d) == r
  {
    var r := UpdateEsp(t, espId, d);
    if espId in t.espUnits && !IsEmptyUnitPatch(d) {
      UnitPatchIdempotent(t.espUnits[espId], d);
      assert r.after.espUnits[espId := ApplyUnitPatch(r.after.espUnits[espId], d)] == r.after.espUnits;
    }
  }

  /** A repeat after the first missing part is never inserted: the loop
      stops at the missing part, rolls back and raises. */
  lemma RepeatAfterMissingPart()
    ensures var t := Tables(map["P-1" := Part("Seal", "Seal", "Viton", 1.0, true, DefaultUom)],
                            map[], map[], map[], {});
      && CanLinkParts(t, "A-X", ["MISSING", "P-1", "P-1"])
      && CreateAssembly(t, "A-X", "X", ["MISSING", "P-1", "P-1"]) == Step(t, Raised(MissingReference("MISSING")))
  {
  }

  /** A leftover unit link after the first missing assembly is never
      re-inserted: the loop stops at the missing assembly first. */
  lemma LeftoverLinkAfterMissingAssembly()
    ensures var t := Tables(map[], map["A-1" := "Seal section"], map[], map[], {("U-1", "A-1")});
      var spec := UnitSpec("ESP-1", "S", 100.0, 1000, 60.0, 500.0, 10, 1000.0);
      && CanLinkAssemblies(t, "U-1", ["A-MISSING", "A-1"])
      && CreateEsp(t, "U-1", spec, ["A-MISSING", "A-1"]) == Step(t, Raised(MissingReference("A-MISSING")))
  {
  }

  /** In a consistent store, force-deleting a part just created restores the store. */
  lemma CreateThenForceDeletePart(t: Tables, partNumber: string, name: string, category: string,
                                  material: string, weightKg: real, isCritical: bool)
    requires Consistent(t) && partNumber !in t.parts
    ensures ForceDeletePart(CreatePart(t, partNumber, name, category, material, weightKg, isCritical).after,
                            partNumber).after == t
  {
    var u := CreatePart(t, partNumber, name, category, material, weightKg, isCritical).after;
    var v := ForceDeletePart(u, partNumber).after;
    assert v.parts == t.parts;
    assert v.assemblyParts == t.assemblyParts;
  }

  /** In a consistent store, after `force_delete_part` no assembly uses the
      part. (A part already removed with `delete_part` is reported missing, so
      its leftover link rows stay.) */
  lemma ForceDeletePartLeavesNoUse(t: Tables, partNumber: string)
    requires Consistent(t)
    ensures forall row :: row !in GetAssembliesUsingPart(ForceDeletePart(t, partNumber).after, partNumber)
    ensures GetPart(ForceDeletePart(t, partNumber).after, partNumber) == None
  {
  }

  /** In a consistent store, after `force_delete_assembly` the assembly is
      gone and no unit uses it. */
  lemma ForceDeleteAssemblyLeavesNoUse(t: Tables, code: string)
    requires Consistent(t)
    ensures forall row :: row !in GetEspsUsingAssembly(ForceDeleteAssembly(t, code).after, code)
    ensures GetAssembly(ForceDeleteAssembly(t, code).after, code) == None
  {
  }

  /** A part removed with `delete_part` vanishes from every assembly's parts,
      since they are an inner join, though its link rows remain. */
  lemma DeletedPartHidden(t: Tables, partNumber: string, code: string)
    ensures var u := DeletePart(t, partNumber).after;
      && ((code, partNumber) in t.assemblyParts ==> (code, partNumber) in u.assemblyParts)
      && forall i :: 0 <= i < |AssemblyParts(u, code)| ==> AssemblyParts(u, code)[i].partNumber != partNumber
  {
    var u := DeletePart(t, partNumber).after;
    AssemblyPartsNumbers(u, code);
    var lines := AssemblyParts(u, code);
    forall i | 0 <= i < |lines| ensures lines[i].partNumber != partNumber {
      assert lines[i].partNumber in NumberSet(lines);
    }
  }

  /** The assemblies listed for a unit depend on nothing but the assemblies
      and the unit links. */
  lemma LinkedAssembliesDepend(t: Tables, u: Tables, espId: string)
    requires t.assemblies == u.assemblies && t.espAssemblies == u.espAssemblies
    ensures LinkedAssemblies(t, espId) == LinkedAssemblies(u, espId)
  {
    var rows := AssemblyRowsWhere(t, (code: string) => (espId, code) in t.espAssemblies);
    AssemblyCodeOrder(rows);
    AscendingUnique(LinkedAssemblies(t, espId), rows, AssemblyCodeBefore);
    AscendingUnique(LinkedAssemblies(u, espId), rows, AssemblyCodeBefore);
  }

  /** `delete_esp` leaves the unit's links behind, so a unit created again
      under the same id, with no assemblies listed, has the old unit's
      assemblies. */
  lemma DeletedUnitLinksRevive(t: Tables, espId: string, spec: UnitSpec)
    requires espId in t.espUnits
    ensures var u := DeleteEsp(t, espId).after;
      && CreateEsp(u, espId, spec, []).out.Ok?
      && GetEspAssemblies(CreateEsp(u, espId, spec, []).after, espId).value.assemblies
         == GetEspAssemblies(t, espId).value.assemblies
  {
    var u := DeleteEsp(t, espId).after;
    var w := CreateEsp(u, espId, spec, []).after;
    assert w.espAssemblies == t.espAssemblies;
    LinkedAssembliesDepend(t, w, espId);
  }
}
