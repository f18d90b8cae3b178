/** `ESPDatabase`: the store as an object whose five tables are fields that
    its methods update in place. Each mutating method is proved to leave the
    tables as the matching function of `Transitions` says and to return what
    it says; the readers that loop in Python are methods proved equal to the
    functions of `Queries`. */
module Database {
  import opened Schema
  import opened Bom
  import opened Queries
  import T = Transitions

  class EspDatabase {
    var parts: map<string, Part>
    var assemblies: map<string, string>
    var assemblyParts: map<(string, string), Link>
    var espUnits: map<string, UnitSpec>
    var espAssemblies: set<(string, string)>

    /** The tables as the last commit left them. */
    function State(): Tables
      reads this
    {
      Tables(parts, assemblies, assemblyParts, espUnits, espAssemblies)
    }

    /** Opening a database file: its tables are whatever the file holds. */
    constructor(initial: Tables)
      ensures State() == initial
    {
      parts := initial.parts;
      assemblies := initial.assemblies;
      assemblyParts := initial.assemblyParts;
      espUnits := initial.espUnits;
      espAssemblies := initial.espAssemblies;
    }

    /** `conn.rollback()`: back to the tables of the last commit. */
    method Rollback(saved: Tables)
      modifies this
      ensures State() == saved
    {
      parts := saved.parts;
      assemblies := saved.assemblies;
      assemblyParts := saved.assemblyParts;
      espUnits := saved.espUnits;
      espAssemblies := saved.espAssemblies;
    }

    // ---- readers that loop ----

    /** `get_all_assemblies`: one parts query per assembly, appended in order. */
    method GetAllAssemblies() returns (r: seq<AssemblyView>)
      ensures r == Queries.GetAllAssemblies(State())
    {
      var t := State();
      r := CollectViews(t, SortedAssemblyRows(t));
    }

    /** `get_esp`: the unit's assemblies, each with its parts, then the
        flattened BOM. */
    method GetEsp(espId: string) returns (r: Option<EspView>)
      ensures r == Queries.GetEsp(State(), espId)
    {
      if espId !in espUnits {
        return None;
      }
      var t := State();
      var views := CollectViews(t, LinkedAssemblies(t, espId));
      var allParts := FlattenBom(views);
      r := Some(EspView(espId, espUnits[espId], views, allParts));
    }

    /** `get_esp_bom_parts`. */
    method GetEspBomParts(espId: string) returns (r: Option<seq<BomLine>>)
      ensures r == Queries.GetEspBomParts(State(), espId)
    {
      var esp := GetEsp(espId);
      if esp.Some? {
        return Some(esp.value.bomParts);
      }
      return None;
    }

    /** `get_bom_summary`: None for a missing unit, else the counts over its
        flattened BOM. */
    method GetBomSummary(espId: string) returns (r: Option<BomSummary>)
      ensures r == Queries.GetBomSummary(State(), espId)
    {
      var esp := GetEsp(espId);
      if esp.None? {
        return None;
      }
      var summary := SummarizeBom(espId, esp.value.spec.modelName, esp.value.bomParts, |esp.value.assemblies|);
      r := Some(summary);
    }

    // ---- parts ----

    method CreatePart(partNumber: string, name: string, category: string, material: string,
                      weightKg: real, isCritical: bool) returns (r: Outcome<PartRow>)
      modifies this
      ensures var s := T.CreatePart(old(State()), partNumber, name, category, material, weightKg, isCritical);
        State() == s.after && r == s.out
    {
      if partNumber in parts {
        return Raised(DuplicateKey(partNumber));
      }
      parts := parts[partNumber := Part(name, category, material, weightKg, isCritical, DefaultUom)];
      r := Ok(PartRow(partNumber, parts[partNumber]));
    }

    method UpdatePart(partNumber: string, d: PartPatch) returns (r: Option<PartRow>)
      modifies this
      ensures var s := T.UpdatePart(old(State()), partNumber, d);
        State() == s.after && r == s.out
    {
      var existing := Queries.GetPart(State(), partNumber);
      if existing.None? {
        return None;
      }
      if IsEmptyPartPatch(d) {
        return existing;
      }
      parts := parts[partNumber := ApplyPartPatch(parts[partNumber], d)];
      r := Queries.GetPart(State(), partNumber);
    }

    method DeletePart(partNumber: string) returns (deleted: bool)
      modifies this
      ensures var s := T.DeletePart(old(State()), partNumber);
        State() == s.after && deleted == s.out
    {
      deleted := partNumber in parts;
      parts := parts - {partNumber};
    }

    method ForceDeletePart(partNumber: string) returns (deleted: bool)
      modifies this
      ensures var s := T.ForceDeletePart(old(State()), partNumber);
        State() == s.after && deleted == s.out
    {
      if partNumber !in parts {
        return false;
      }
      assemblyParts := map k | k in assemblyParts && k.1 != partNumber :: assemblyParts[k];
      parts := parts - {partNumber};
      return true;
    }

    // ---- assemblies ----

    /** `create_assembly`: inserts the assembly, then checks and links each
        listed part in turn; a missing part rolls everything back. */
    method CreateAssembly(code: string, name: string, partNumbers: seq<string>) returns (r: Outcome<AssemblyView>)
      requires T.CanLinkParts(State(), code, partNumbers)
      modifies this
      ensures var s := T.CreateAssembly(old(State()), code, name, partNumbers);
        State() == s.after && r == s.out
    {
      if code in assemblies {
        return Raised(DuplicateKey(code));
      }
      var saved := State();
      assemblies := assemblies[code := name];
      var missing := LinkListedParts(code, partNumbers);
      if missing.Some? {
        Rollback(saved);
        return Raised(MissingReference(partNumbers[missing.value]));
      }
      assert T.CreateAssembly(saved, code, name, partNumbers) == T.Step(State(), Ok(ViewOf(State(), code)));
      r := Ok(ViewOf(State(), code));
    }

    /** The loop of `create_assembly`: checks each listed part and links it,
        stopping at the first one that does not exist. */
    method LinkListedParts(code: string, partNumbers: seq<string>) returns (missing: Option<nat>)
      modifies this
      ensures missing == FirstAbsent(partNumbers, old(parts))
      ensures missing.None? ==>
                State() == old(State()).(assemblyParts := T.LinkAll(old(assemblyParts), code, partNumbers))
    {
      ghost var start := State();
      var i := 0;
      while i < |partNumbers|
        invariant 0 <= i <= |partNumbers|
        invariant forall j :: 0 <= j < i ==> partNumbers[j] in start.parts
        invariant State() == start.(assemblyParts := T.LinkAll(start.assemblyParts, code, partNumbers[..i]))
      {
        var pn := partNumbers[i];
        if pn !in parts {
          FirstAbsentAt(partNumbers, parts, i);
          return Some(i);
        }
        assert partNumbers[..i + 1][..i] == partNumbers[..i];
        assemblyParts := assemblyParts[(code, pn) := DefaultLink];
        i := i + 1;
      }
      assert partNumbers[..i] == partNumbers;
      return None;
    }

    method UpdateAssembly(code: string, name: Option<string>) returns (r: Option<AssemblyView>)
      modifies this
      ensures var s := T.UpdateAssembly(old(State()), code, name);
        State() == s.after && r == s.out
    {
      if code !in assemblies {
        return None;
      }
      if name.Some? {
        assemblies := assemblies[code := name.value];
      }
      r := Queries.GetAssembly(State(), code);
    }

    method DeleteAssembly(code: string) returns (deleted: bool)
      modifies this
      ensures var s := T.DeleteAssembly(old(State()), code);
        State() == s.after && deleted == s.out
    {
      deleted := code in assemblies;
      assemblies := assemblies - {code};
    }

    method ForceDeleteAssembly(code: string) returns (deleted: bool)
      modifies this
      ensures var s := T.ForceDeleteAssembly(old(State()), code);
        State() == s.after && deleted == s.out
    {
      if code !in assemblies {
        return false;
      }
      espAssemblies := set k | k in espAssemblies && k.1 != code;
      assemblyParts := map k | k in assemblyParts && k.0 != code :: assemblyParts[k];
      assemblies := assemblies - {code};
      return true;
    }

    // ---- the parts of an assembly ----

    method AddPartToAssembly(code: string, partNumber: string) returns (r: Outcome<AssemblyView>)
      modifies this
      ensures var s := T.AddPartToAssembly(old(State()), code, partNumber);
        State() == s.after && r == s.out
    {
      if code !in assemblies {
        return NotFound;
      }
      if partNumber !in parts {
        return NotFound;
      }
      if (code, partNumber) in assemblyParts {
        return Raised(DuplicateLink(code, partNumber));
      }
      assemblyParts := assemblyParts[(code, partNumber) := DefaultLink];
      r := Ok(ViewOf(State(), code));
    }

    method RemovePartFromAssembly(code: string, partNumber: string) returns (r: Option<AssemblyView>)
      modifies this
      ensures var s := T.RemovePartFromAssembly(old(State()), code, partNumber);
        State() == s.after && r == s.out
    {
      if code !in assemblies {
        return None;
      }
      assemblyParts := assemblyParts - {(code, partNumber)};
      r := Queries.GetAssembly(State(), code);
    }

    method UpdateAssemblyPartQuantity(code: string, partNumber: string, quantity: int) returns (r: Outcome<AssemblyView>)
      modifies this
      ensures var s := T.UpdateAssemblyPartQuantity(old(State()), code, partNumber, quantity);
        State() == s.after && r == s.out
    {
      if quantity < 1 {
        return Raised(InvalidQuantity(quantity));
      }
      if code !in assemblies {
        return NotFound;
      }
      if (code, partNumber) !in assemblyParts {
        return NotFound;
      }
      var link := assemblyParts[(code, partNumber)];
      assemblyParts := assemblyParts[(code, partNumber) := link.(quantity := quantity)];
      r := Ok(ViewOf(State(), code));
    }

    // ---- units ----

    /** `create_esp`: inserts the unit, then checks and links each listed
        assembly in turn; a missing assembly rolls everything back. */
    method CreateEsp(espId: string, spec: UnitSpec, codes: seq<string>) returns (r: Outcome<EspView>)
      requires T.CanLinkAssemblies(State(), espId, codes)
      modifies this
      ensures var s := T.CreateEsp(old(State()), espId, spec, codes);
        State() == s.after && r == s.out
    {
      if espId in espUnits {
        return Raised(DuplicateKey(espId));
      }
      var saved := State();
      espUnits := espUnits[espId := spec];
      var missing := LinkListedAssemblies(espId, codes);
      if missing.Some? {
        Rollback(saved);
        return Raised(MissingReference(codes[missing.value]));
      }
      assert T.CreateEsp(saved, espId, spec, codes) == T.Step(State(), Ok(Queries.GetEsp(State(), espId).value));
      var esp := GetEsp(espId);
      r := Ok(esp.value);
    }

    /** The loop of `create_esp`: checks each listed assembly and links it,
        stopping at the first one that does not exist. */
    method LinkListedAssemblies(espId: string, codes: seq<string>) returns (missing: Option<nat>)
      modifies this
      ensures missing == FirstAbsent(codes, old(assemblies))
      ensures missing.None? ==>
                State() == old(State()).(espAssemblies := old(espAssemblies) + T.LinkSet(espId, codes))
    {
      ghost var start := State();
      var i := 0;
      while i < |codes|
        invariant 0 <= i <= |codes|
        invariant assemblies == start.assemblies
        invariant forall j :: 0 <= j < i ==> codes[j] in start.assemblies
        invariant State() == start.(espAssemblies := start.espAssemblies + T.LinkSet(espId, codes[..i]))
      {
        var code := codes[i];
        if code !in assemblies {
          FirstAbsentAt(codes, assemblies, i);
          return Some(i);
        }
        assert codes[..i + 1] == codes[..i] + [code];
        assert T.LinkSet(espId, codes[..i + 1]) == T.LinkSet(espId, codes[..i]) + {(espId, code)};
        espAssemblies := espAssemblies + {(espId, code)};
        i := i + 1;
      }
      assert codes[..i] == codes;
      return None;
    }

    method UpdateEsp(espId: string, d: UnitPatch) returns (r: Option<EspView>)
      modifies this
      ensures var s := T.UpdateEsp(old(State()), espId, d);
        State() == s.after && r == s.out
    {
      if espId !in espUnits {
        return None;
      }
      if !IsEmptyUnitPatch(d) {
        espUnits := espUnits[espId := ApplyUnitPatch(espUnits[espId], d)];
      }
      r := GetEsp(espId);
    }

    method DeleteEsp(espId: string) returns (deleted: bool)
      modifies this
      ensures var s := T.DeleteEsp(old(State()), espId);
        State() == s.after && deleted == s.out
    {
      deleted := espId in espUnits;
      espUnits := espUnits - {espId};
    }

    method AddAssemblyToEsp(espId: string, code: string) returns (r: Outcome<EspView>)
      modifies this
      ensures var s := T.AddAssemblyToEsp(old(State()), espId, code);
        State() == s.after && r == s.out
    {
      if espId !in espUnits {
        return NotFound;
      }
      if code !in assemblies {
        return NotFound;
      }
      if (espId, code) in espAssemblies {
        return Raised(DuplicateLink(espId, code));
      }
      espAssemblies := espAssemblies + {(espId, code)};
      var esp := GetEsp(espId);
      r := Ok(esp.value);
    }

    method RemoveAssemblyFromEsp(espId: string, code: string) returns (r: Option<EspView>)
      modifies this
      ensures var s := T.RemoveAssemblyFromEsp(old(State()), espId, code);
        State() == s.after && r == s.out
    {
      if espId !in espUnits {
        return None;
      }
      espAssemblies := espAssemblies - {(espId, code)};
      r := GetEsp(espId);
    }
  }

  /** For each assembly row in turn, the row with its parts query appended. */
  method CollectViews(t: Tables, rows: seq<AssemblyRow>) returns (views: seq<AssemblyView>)
    requires forall i :: 0 <= i < |rows| ==> rows[i].assemblyCode in t.assemblies
    requires forall i :: 0 <= i < |rows| ==> rows[i].name == t.assemblies[rows[i].assemblyCode]
    ensures views == ViewsOf(t, rows)
  {
    views := [];
    var i := 0;
    while i < |rows|
      invariant 0 <= i <= |rows|
      invariant |views| == i
      invariant forall j :: 0 <= j < i ==> views[j] == ViewOf(t, rows[j].assemblyCode)
    {
      views := views + [AssemblyView(rows[i].assemblyCode, rows[i].name, AssemblyParts(t, rows[i].assemblyCode))];
      i := i + 1;
    }
  }

  /** The loop of `get_esp` that builds `bom_parts`: walk the assemblies'
      parts in order and keep a line only when its part number is not in
      `seen` yet. */
  method FlattenBom(views: seq<AssemblyView>) returns (allParts: seq<BomLine>)
    ensures allParts == DistinctByPart(Concat(views))
  {
    allParts := [];
    var seen: set<string> := {};
    var a := 0;
    while a < |views|
      invariant 0 <= a <= |views|
      invariant allParts == DistinctByPart(Concat(views[..a]))
      invariant seen == NumberSet(allParts)
    {
      allParts, seen := KeepUnseen(Concat(views[..a]), views[a].parts, allParts, seen);
      ConcatSnoc(views, a);
      a := a + 1;
    }
    assert views[..a] == views;
  }

  /** The inner loop over one assembly's parts. */
  method KeepUnseen(ghost before: seq<BomLine>, lines: seq<BomLine>, kept: seq<BomLine>, seen: set<string>)
    returns (kept': seq<BomLine>, seen': set<string>)
    requires kept == DistinctByPart(before) && seen == NumberSet(kept)
    ensures kept' == DistinctByPart(before + lines) && seen' == NumberSet(kept')
  {
    kept', seen' := kept, seen;
    var j := 0;
    assert before + lines[..j] == before;
    while j < |lines|
      invariant 0 <= j <= |lines|
      invariant kept' == DistinctByPart(before + lines[..j])
      invariant seen' == NumberSet(kept')
    {
      DistinctByPartSnoc(before + lines[..j], lines[j]);
      assert before + lines[..j + 1] == before + lines[..j] + [lines[j]];
      if lines[j].partNumber !in seen' {
        NumberSetAppend(kept', lines[j]);
        seen' := seen' + {lines[j].partNumber};
        kept' := kept' + [lines[j]];
      }
      j := j + 1;
    }
    assert lines[..j] == lines;
  }

  /** `byCategory` holds the count of each category of `lines`, and `order`
      lists those categories as they are first met. */
  ghost predicate Tallied(order: seq<string>, byCategory: map<string, nat>, lines: seq<BomLine>)
  {
    && order == Categories(lines)
    && (forall c :: c in byCategory <==> c in order)
    && (forall c :: c in byCategory ==> byCategory[c] == CountIn(lines, c))
  }

  lemma TallyStep(order: seq<string>, byCategory: map<string, nat>, lines: seq<BomLine>, l: BomLine)
    requires Tallied(order, byCategory, lines)
    ensures var c := l.part.category;
      if c in byCategory then Tallied(order, byCategory[c := byCategory[c] + 1], lines + [l])
      else Tallied(order + [c], byCategory[c := 1], lines + [l])
  {
    CountsSnoc(lines, l);
  }

  /** The `by_category` loop of `get_bom_summary`: each category's count,
      with the categories in the order they are first met. */
  method CountByCategory(bom: seq<BomLine>) returns (order: seq<string>, byCategory: map<string, nat>)
    ensures Tallied(order, byCategory, bom)
  {
    byCategory := map[];
    order := [];
    var i := 0;
    while i < |bom|
      invariant 0 <= i <= |bom|
      invariant Tallied(order, byCategory, bom[..i])
    {
      TallyStep(order, byCategory, bom[..i], bom[i]);
      assert bom[..i + 1] == bom[..i] + [bom[i]];
      var cat := bom[i].part.category;
      if cat !in byCategory {
        order := order + [cat];
        byCategory := byCategory[cat := 1];
      } else {
        byCategory := byCategory[cat := byCategory[cat] + 1];
      }
      i := i + 1;
    }
    assert bom[..i] == bom;
  }

  /** `sum(p["weight_kg"] ...)` and `sum(1 for p ... if p["is_critical"])`. */
  method WeightAndCritical(bom: seq<BomLine>) returns (totalWeight: real, critical: nat)
    ensures totalWeight == TotalWeight(bom)
    ensures critical == CriticalCount(bom)
  {
    totalWeight := 0.0;
    critical := 0;
    var k := 0;
    while k < |bom|
      invariant 0 <= k <= |bom|
      invariant totalWeight == TotalWeight(bom[..k])
      invariant critical == CriticalCount(bom[..k])
    {
      SumsSnoc(bom[..k], bom[k]);
      assert bom[..k + 1] == bom[..k] + [bom[k]];
      totalWeight := totalWeight + bom[k].part.weightKg;
      if bom[k].part.isCritical {
        critical := critical + 1;
      }
      k := k + 1;
    }
    assert bom[..k] == bom;
  }

  /** The body of `get_bom_summary` after the lookup. */
  method SummarizeBom(espId: string, modelName: string, bom: seq<BomLine>, assemblyCount: nat)
    returns (s: BomSummary)
    ensures s == Summarize(espId, modelName, bom, assemblyCount)
  {
    var order, byCategory := CountByCategory(bom);
    var totalWeight, critical := WeightAndCritical(bom);
    var counts := seq(|order|, n requires 0 <= n < |order| => CategoryCount(order[n], byCategory[order[n]]));
    assert counts == CategoryCounts(bom);
    s := BomSummary(espId, modelName, |bom|, totalWeight, critical, counts, assemblyCount);
  }
}
