/** The store's read operations as functions of the tables: each is a
    selection, an inner join or both, followed by an `ORDER BY`. */
module Queries {
  import opened Ordering
  import opened Schema
  import opened Bom

  // ---- the orders of the ORDER BY clauses ----

  predicate PartNumberBefore(x: PartRow, y: PartRow)
  {
    StrLess(x.partNumber, y.partNumber)
  }

  /** `ORDER BY category, part_number`. */
  predicate PartRowBefore(x: PartRow, y: PartRow)
  {
    StrLess(x.part.category, y.part.category)
    || (x.part.category == y.part.category && StrLess(x.partNumber, y.partNumber))
  }

  predicate AssemblyCodeBefore(x: AssemblyRow, y: AssemblyRow)
  {
    StrLess(x.assemblyCode, y.assemblyCode)
  }

  predicate EspIdBefore(x: EspRow, y: EspRow)
  {
    StrLess(x.espId, y.espId)
  }

  /** `ORDER BY power_rating_kw`; rows of equal power are put in `esp_id`
      order here, where the source leaves their order to SQLite. */
  predicate PowerBefore(x: EspRow, y: EspRow)
  {
    x.spec.powerRatingKw < y.spec.powerRatingKw
    || (x.spec.powerRatingKw == y.spec.powerRatingKw && StrLess(x.espId, y.espId))
  }

  ghost predicate UniquePartNumbers(s: set<PartRow>)
  {
    forall x, y :: x in s && y in s && x.partNumber == y.partNumber ==> x == y
  }

  ghost predicate UniqueCodes(s: set<AssemblyRow>)
  {
    forall x, y :: x in s && y in s && x.assemblyCode == y.assemblyCode ==> x == y
  }

  ghost predicate UniqueIds(s: set<EspRow>)
  {
    forall x, y :: x in s && y in s && x.espId == y.espId ==> x == y
  }

  lemma PartNumberOrder(s: set<PartRow>)
    requires UniquePartNumbers(s)
    ensures StrictTotalOn(PartNumberBefore, s)
  {
    forall x | x in s ensures !PartNumberBefore(x, x) {
      StrLessIrreflexive(x.partNumber);
    }
    forall x, y, z | x in s && y in s && z in s && PartNumberBefore(x, y) && PartNumberBefore(y, z)
      ensures PartNumberBefore(x, z)
    {
      StrLessTransitive(x.partNumber, y.partNumber, z.partNumber);
    }
    forall x, y | x in s && y in s && x != y ensures PartNumberBefore(x, y) || PartNumberBefore(y, x) {
      StrLessTotal(x.partNumber, y.partNumber);
    }
  }

  lemma PartRowOrder(s: set<PartRow>)
    requires UniquePartNumbers(s)
    ensures StrictTotalOn(PartRowBefore, s)
  {
    forall x | x in s ensures !PartRowBefore(x, x) {
      StrLessIrreflexive(x.partNumber);
      StrLessIrreflexive(x.part.category);
    }
    forall x, y, z | x in s && y in s && z in s && PartRowBefore(x, y) && PartRowBefore(y, z)
      ensures PartRowBefore(x, z)
    {
      if StrLess(x.part.category, y.part.category) && StrLess(y.part.category, z.part.category) {
        StrLessTransitive(x.part.category, y.part.category, z.part.category);
      } else if x.part.category == y.part.category == z.part.category {
        StrLessTransitive(x.partNumber, y.partNumber, z.partNumber);
      }
    }
    forall x, y | x in s && y in s && x != y ensures PartRowBefore(x, y) || PartRowBefore(y, x) {
      if x.part.category != y.part.category {
        StrLessTotal(x.part.category, y.part.category);
      } else {
        StrLessTotal(x.partNumber, y.partNumber);
      }
    }
  }

  lemma AssemblyCodeOrder(s: set<AssemblyRow>)
    requires UniqueCodes(s)
    ensures StrictTotalOn(AssemblyCodeBefore, s)
  {
    forall x | x in s ensures !AssemblyCodeBefore(x, x) {
      StrLessIrreflexive(x.assemblyCode);
    }
    forall x, y, z | x in s && y in s && z in s && AssemblyCodeBefore(x, y) && AssemblyCodeBefore(y, z)
      ensures AssemblyCodeBefore(x, z)
    {
      StrLessTransitive(x.assemblyCode, y.assemblyCode, z.assemblyCode);
    }
    forall x, y | x in s && y in s && x != y ensures AssemblyCodeBefore(x, y) || AssemblyCodeBefore(y, x) {
      StrLessTotal(x.assemblyCode, y.assemblyCode);
    }
  }

  lemma EspIdOrder(s: set<EspRow>)
    requires UniqueIds(s)
    ensures StrictTotalOn(EspIdBefore, s)
  {
    forall x | x in s ensures !EspIdBefore(x, x) {
      StrLessIrreflexive(x.espId);
    }
    forall x, y, z | x in s && y in s && z in s && EspIdBefore(x, y) && EspIdBefore(y, z)
      ensures EspIdBefore(x, z)
    {
      StrLessTransitive(x.espId, y.espId, z.espId);
    }
    forall x, y | x in s && y in s && x != y ensures EspIdBefore(x, y) || EspIdBefore(y, x) {
      StrLessTotal(x.espId, y.espId);
    }
  }

  lemma PowerOrder(s: set<EspRow>)
    requires UniqueIds(s)
    ensures StrictTotalOn(PowerBefore, s)
  {
    forall x | x in s ensures !PowerBefore(x, x) {
      StrLessIrreflexive(x.espId);
    }
    forall x, y, z | x in s && y in s && z in s && PowerBefore(x, y) && PowerBefore(y, z)
      ensures PowerBefore(x, z)
    {
      if x.spec.powerRatingKw == y.spec.powerRatingKw == z.spec.powerRatingKw {
        StrLessTransitive(x.espId, y.espId, z.espId);
      }
    }
    forall x, y | x in s && y in s && x != y ensures PowerBefore(x, y) || PowerBefore(y, x) {
      StrLessTotal(x.espId, y.espId);
    }
  }

  // ---- parts ----

  function PartRowsWhere(t: Tables, keep: Part -> bool): (s: set<PartRow>)
    ensures UniquePartNumbers(s)
    ensures forall row :: row in s <==>
              row.partNumber in t.parts && row.part == t.parts[row.partNumber] && keep(row.part)
  {
    set pn | pn in t.parts && keep(t.parts[pn]) :: PartRow(pn, t.parts[pn])
  }

  /** `get_part`: the row with that part number, or None. */
  function GetPart(t: Tables, partNumber: string): (r: Option<PartRow>)
    ensures r.None? <==> partNumber !in t.parts
    ensures r.Some? ==> r.value.partNumber == partNumber && r.value.part == t.parts[partNumber]
  {
    if partNumber in t.parts then Some(PartRow(partNumber, t.parts[partNumber])) else None
  }

  /** `get_all_parts`: every part, in part-number order. */
  function GetAllParts(t: Tables): (r: seq<PartRow>)
    ensures |r| == |t.parts|
    ensures forall row :: row in r <==> GetPart(t, row.partNumber) == Some(row)
    ensures forall i, j :: 0 <= i < j < |r| ==> StrLess(r[i].partNumber, r[j].partNumber)
  {
    var rows := PartRowsWhere(t, (p: Part) => true);
    assert |rows| == |t.parts| by {
      forall pn | pn in t.parts ensures pn in KeysOf(rows) {
        assert PartRow(pn, t.parts[pn]) in rows;
      }
      assert KeysOf(rows) == t.parts.Keys;
      KeysOfCount(rows);
    }
    PartNumberOrder(rows);
    SortSet(rows, PartNumberBefore)
  }

  function KeysOf(rows: set<PartRow>): set<string>
  {
    set row | row in rows :: row.partNumber
  }

  lemma {:induction false} KeysOfCount(rows: set<PartRow>)
    requires UniquePartNumbers(rows)
    ensures |KeysOf(rows)| == |rows|
    decreases |rows|
  {
    if rows != {} {
      var x :| x in rows;
      var rest := rows - {x};
      KeysOfCount(rest);
      assert KeysOf(rows) == KeysOf(rest) + {x.partNumber};
      assert x.partNumber !in KeysOf(rest);
    }
  }

  /** `get_parts_by_category`: the parts of exactly that category, in
      part-number order. */
  function GetPartsByCategory(t: Tables, category: string): (r: seq<PartRow>)
    ensures forall row :: row in r <==> GetPart(t, row.partNumber) == Some(row) && row.part.category == category
    ensures forall i, j :: 0 <= i < j < |r| ==> StrLess(r[i].partNumber, r[j].partNumber)
  {
    var rows := PartRowsWhere(t, (p: Part) => p.category == category);
    PartNumberOrder(rows);
    SortSet(rows, PartNumberBefore)
  }

  /** `get_critical_parts`: the critical parts, by category then part number. */
  function GetCriticalParts(t: Tables): (r: seq<PartRow>)
    ensures forall row :: row in r <==> GetPart(t, row.partNumber) == Some(row) && row.part.isCritical
    ensures forall i, j :: 0 <= i < j < |r| ==> PartRowBefore(r[i], r[j])
  {
    var rows := PartRowsWhere(t, (p: Part) => p.isCritical);
    PartRowOrder(rows);
    SortSet(rows, PartRowBefore)
  }

  /** SQLite's LIKE folds the case of ASCII letters only. */
  function AsciiLower(c: char): char
  {
    if 'A' <= c <= 'Z' then (c as int + 32) as char else c
  }

  function LowerAscii(s: string): (r: string)
    ensures |r| == |s|
  {
    seq(|s|, i requires 0 <= i < |s| => AsciiLower(s[i]))
  }

  /** `piece` occurs in `text` at some offset. */
  predicate HasSubstring(text: string, piece: string)
  {
    exists i :: 0 <= i <= |text| && piece <= text[i..]
  }

  /** `field LIKE '%query%'` for a query without the wildcards `%` and `_`. */
  predicate LikeContains(field: string, query: string)
  {
    HasSubstring(LowerAscii(field), LowerAscii(query))
  }

  predicate MatchesQuery(p: Part, query: string)
  {
    LikeContains(p.name, query) || LikeContains(p.category, query) || LikeContains(p.material, query)
  }

  /** `search_parts`: parts whose name, category or material contains the
      query, by category then part number. */
  function SearchParts(t: Tables, query: string): (r: seq<PartRow>)
    ensures forall row :: row in r <==> GetPart(t, row.partNumber) == Some(row) && MatchesQuery(row.part, query)
    ensures forall i, j :: 0 <= i < j < |r| ==> PartRowBefore(r[i], r[j])
  {
    var rows := PartRowsWhere(t, (p: Part) => MatchesQuery(p, query));
    PartRowOrder(rows);
    SortSet(rows, PartRowBefore)
  }

  /** The empty query is `LIKE '%%'`, which every part matches. */
  lemma EmptyQueryMatchesAll(t: Tables, partNumber: string)
    requires partNumber in t.parts
    ensures PartRow(partNumber, t.parts[partNumber]) in SearchParts(t, "")
  {
    var name := LowerAscii(t.parts[partNumber].name);
    assert LowerAscii("") <= name[0..];
  }

  /** The search ignores the case of ASCII letters in the query. */
  lemma SearchIgnoresCase(t: Tables, q1: string, q2: string)
    requires LowerAscii(q1) == LowerAscii(q2)
    ensures SearchParts(t, q1) == SearchParts(t, q2)
  {
    var r1 := SearchParts(t, q1);
    var r2 := SearchParts(t, q2);
    var rows := PartRowsWhere(t, (p: Part) => MatchesQuery(p, q2));
    PartRowOrder(rows);
    AscendingUnique(r1, rows, PartRowBefore);
  }

  // ---- assemblies ----

  /** The rows of the parts that have a link row to the assembly. */
  function LinkedPartRows(t: Tables, code: string): (s: set<PartRow>)
    ensures UniquePartNumbers(s)
    ensures forall row :: row in s <==>
              row.partNumber in t.parts && row.part == t.parts[row.partNumber]
              && (code, row.partNumber) in t.assemblyParts
  {
    set pn | pn in t.parts && (code, pn) in t.assemblyParts :: PartRow(pn, t.parts[pn])
  }

  /** A part row joined with its link row (`quantity`, `bom_level`). */
  function LineFor(t: Tables, code: string, row: PartRow): (l: BomLine)
    requires (code, row.partNumber) in t.assemblyParts
    ensures l.partNumber == row.partNumber && l.part == row.part
  {
    var link := t.assemblyParts[(code, row.partNumber)];
    BomLine(row.partNumber, row.part, link.quantity, link.bomLevel)
  }

  function RowOf(l: BomLine): PartRow
  {
    PartRow(l.partNumber, l.part)
  }

  function JoinLinks(t: Tables, code: string, rows: seq<PartRow>): (lines: seq<BomLine>)
    requires forall i :: 0 <= i < |rows| ==> (code, rows[i].partNumber) in t.assemblyParts
    ensures |lines| == |rows|
    ensures forall i :: 0 <= i < |rows| ==> lines[i] == LineFor(t, code, rows[i])
  {
    if rows == [] then [] else [LineFor(t, code, rows[0])] + JoinLinks(t, code, rows[1..])
  }

  /** The linked part rows of an assembly by category, then part number. */
  function SortedLinkedRows(t: Tables, code: string): (rows: seq<PartRow>)
    ensures forall row :: row in rows <==>
              row.partNumber in t.parts && row.part == t.parts[row.partNumber]
              && (code, row.partNumber) in t.assemblyParts
    ensures forall i, j :: 0 <= i < j < |rows| ==> PartRowBefore(rows[i], rows[j])
  {
    var linked := LinkedPartRows(t, code);
    PartRowOrder(linked);
    SortSet(linked, PartRowBefore)
  }

  /** The parts of an assembly as the inner join of `assembly_parts` with
      `parts` returns them, ordered by category, then part number: a link
      whose part row is missing does not show. */
  function AssemblyParts(t: Tables, code: string): (lines: seq<BomLine>)
    ensures |lines| == |SortedLinkedRows(t, code)|
    ensures forall i :: 0 <= i < |lines| ==> lines[i] == LineFor(t, code, SortedLinkedRows(t, code)[i])
  {
    var rows := SortedLinkedRows(t, code);
    assert forall i :: 0 <= i < |rows| ==> rows[i] in rows;
    JoinLinks(t, code, rows)
  }

  /** Each line of an assembly's parts is an existing part joined with its
      link row, and every existing linked part has a line. */
  lemma AssemblyPartsJoin(t: Tables, code: string)
    ensures forall l :: l in AssemblyParts(t, code) <==>
              && l.partNumber in t.parts && l.part == t.parts[l.partNumber]
              && (code, l.partNumber) in t.assemblyParts
              && l == LineFor(t, code, RowOf(l))
  {
    var rows := SortedLinkedRows(t, code);
    var lines := AssemblyParts(t, code);
    forall l ensures l in lines <==>
              && l.partNumber in t.parts && l.part == t.parts[l.partNumber]
              && (code, l.partNumber) in t.assemblyParts
              && l == LineFor(t, code, RowOf(l))
    {
      if l in lines {
        var i :| 0 <= i < |lines| && lines[i] == l;
        assert rows[i] in rows;
      }
      if && l.partNumber in t.parts && l.part == t.parts[l.partNumber]
         && (code, l.partNumber) in t.assemblyParts && l == LineFor(t, code, RowOf(l))
      {
        assert RowOf(l) in rows;
        var i :| 0 <= i < |rows| && rows[i] == RowOf(l);
        assert lines[i] == l;
      }
    }
  }

  /** The parts of an assembly are listed once each, by category, then part number. */
  lemma AssemblyPartsOrdered(t: Tables, code: string)
    ensures forall i, j :: 0 <= i < j < |AssemblyParts(t, code)| ==>
              PartRowBefore(RowOf(AssemblyParts(t, code)[i]), RowOf(AssemblyParts(t, code)[j]))
    ensures NoRepeatedPart(AssemblyParts(t, code))
  {
    var rows := SortedLinkedRows(t, code);
    var lines := AssemblyParts(t, code);
    forall i, j | 0 <= i < j < |lines| ensures PartRowBefore(RowOf(lines[i]), RowOf(lines[j])) {
      assert RowOf(lines[i]) == rows[i] && RowOf(lines[j]) == rows[j];
    }
    forall i, j | 0 <= i < j < |lines| ensures lines[i].partNumber != lines[j].partNumber {
      assert rows[i] in rows && rows[j] in rows;
      assert PartRowBefore(rows[i], rows[j]);
      if rows[i].partNumber == rows[j].partNumber {
        assert rows[i] == rows[j];
        StrLessIrreflexive(rows[i].partNumber);
        StrLessIrreflexive(rows[i].part.category);
      }
    }
  }

  /** The part numbers listed for an assembly are exactly those of its link
      rows whose part exists. */
  lemma AssemblyPartsNumbers(t: Tables, code: string)
    ensures forall pn :: pn in NumberSet(AssemblyParts(t, code)) <==> pn in t.parts && (code, pn) in t.assemblyParts
  {
    AssemblyPartsJoin(t, code);
    var lines := AssemblyParts(t, code);
    forall pn | pn in t.parts && (code, pn) in t.assemblyParts ensures pn in NumberSet(lines) {
      assert LineFor(t, code, PartRow(pn, t.parts[pn])) in lines;
    }
  }

  function ViewOf(t: Tables, code: string): (v: AssemblyView)
    requires code in t.assemblies
    ensures v.assemblyCode == code && v.name == t.assemblies[code]
  {
    AssemblyView(code, t.assemblies[code], AssemblyParts(t, code))
  }

  /** `get_assembly`: the assembly with its resolved parts, or None. */
  function GetAssembly(t: Tables, code: string): (r: Option<AssemblyView>)
    ensures r.None? <==> code !in t.assemblies
    ensures r.Some? ==> r.value == ViewOf(t, code)
  {
    if code in t.assemblies then Some(ViewOf(t, code)) else None
  }

  function AssemblyRowsWhere(t: Tables, keep: string -> bool): (s: set<AssemblyRow>)
    ensures UniqueCodes(s)
    ensures forall row :: row in s <==>
              row.assemblyCode in t.assemblies && row.name == t.assemblies[row.assemblyCode] && keep(row.assemblyCode)
  {
    set code | code in t.assemblies && keep(code) :: AssemblyRow(code, t.assemblies[code])
  }

  function ViewsOf(t: Tables, rows: seq<AssemblyRow>): (r: seq<AssemblyView>)
    requires forall i :: 0 <= i < |rows| ==> rows[i].assemblyCode in t.assemblies
    ensures |r| == |rows|
    ensures forall i :: 0 <= i < |rows| ==> r[i] == ViewOf(t, rows[i].assemblyCode)
  {
    if rows == [] then [] else [ViewOf(t, rows[0].assemblyCode)] + ViewsOf(t, rows[1..])
  }

  /** Every assembly row, in assembly-code order. */
  function SortedAssemblyRows(t: Tables): (rows: seq<AssemblyRow>)
    ensures |rows| == |t.assemblies|
    ensures forall row :: row in rows <==> row.assemblyCode in t.assemblies && row.name == t.assemblies[row.assemblyCode]
    ensures forall i, j :: 0 <= i < j < |rows| ==> StrLess(rows[i].assemblyCode, rows[j].assemblyCode)
  {
    var rows := AssemblyRowsWhere(t, (code: string) => true);
    assert |rows| == |t.assemblies| by {
      forall code | code in t.assemblies ensures code in CodesOf(rows) {
        assert AssemblyRow(code, t.assemblies[code]) in rows;
      }
      assert CodesOf(rows) == t.assemblies.Keys;
      CodesOfCount(rows);
    }
    AssemblyCodeOrder(rows);
    SortSet(rows, AssemblyCodeBefore)
  }

  /** `get_all_assemblies`: every assembly with its parts, by assembly code. */
  function GetAllAssemblies(t: Tables): (r: seq<AssemblyView>)
    ensures |r| == |t.assemblies|
    ensures forall i :: 0 <= i < |r| ==>
              r[i].assemblyCode == SortedAssemblyRows(t)[i].assemblyCode
              && r[i].assemblyCode in t.assemblies && GetAssembly(t, r[i].assemblyCode) == Some(r[i])
  {
    var rows := SortedAssemblyRows(t);
    assert forall i :: 0 <= i < |rows| ==> rows[i] in rows;
    ViewsOf(t, rows)
  }

  /** `get_all_assemblies` lists each assembly once, in code order. */
  lemma AllAssembliesListed(t: Tables)
    ensures forall code :: code in t.assemblies ==>
              exists i :: 0 <= i < |GetAllAssemblies(t)| && GetAllAssemblies(t)[i].assemblyCode == code
    ensures forall i, j :: 0 <= i < j < |GetAllAssemblies(t)| ==>
              StrLess(GetAllAssemblies(t)[i].assemblyCode, GetAllAssemblies(t)[j].assemblyCode)
  {
    var rows := SortedAssemblyRows(t);
    var views := GetAllAssemblies(t);
    forall code | code in t.assemblies ensures exists i :: 0 <= i < |views| && views[i].assemblyCode == code {
      assert AssemblyRow(code, t.assemblies[code]) in rows;
      var i :| 0 <= i < |rows| && rows[i] == AssemblyRow(code, t.assemblies[code]);
      assert views[i].assemblyCode == code;
    }
  }

  function CodesOf(rows: set<AssemblyRow>): set<string>
  {
    set row | row in rows :: row.assemblyCode
  }

  lemma {:induction false} CodesOfCount(rows: set<AssemblyRow>)
    requires UniqueCodes(rows)
    ensures |CodesOf(rows)| == |rows|
    decreases |rows|
  {
    if rows != {} {
      var x :| x in rows;
      var rest := rows - {x};
      CodesOfCount(rest);
      assert CodesOf(rows) == CodesOf(rest) + {x.assemblyCode};
      assert x.assemblyCode !in CodesOf(rest);
    }
  }

  /** `get_assemblies_using_part`: the existing assemblies that have a link
      to the part (whether or not the part itself still exists), by code. */
  function GetAssembliesUsingPart(t: Tables, partNumber: string): (r: seq<AssemblyRow>)
    ensures forall row :: row in r <==>
              row.assemblyCode in t.assemblies && row.name == t.assemblies[row.assemblyCode]
              && (row.assemblyCode, partNumber) in t.assemblyParts
    ensures forall i, j :: 0 <= i < j < |r| ==> StrLess(r[i].assemblyCode, r[j].assemblyCode)
  {
    var rows := AssemblyRowsWhere(t, (code: string) => (code, partNumber) in t.assemblyParts);
    AssemblyCodeOrder(rows);
    SortSet(rows, AssemblyCodeBefore)
  }

  // ---- units ----

  function EspRowsWhere(t: Tables, keep: EspRow -> bool): (s: set<EspRow>)
    ensures UniqueIds(s)
    ensures forall row :: row in s <==>
              row.espId in t.espUnits && row.spec == t.espUnits[row.espId] && keep(row)
  {
    set id | id in t.espUnits && keep(EspRow(id, t.espUnits[id])) :: EspRow(id, t.espUnits[id])
  }

  /** `get_all_esps`: every unit, by id. */
  function GetAllEsps(t: Tables): (r: seq<EspRow>)
    ensures forall row :: row in r <==> row.espId in t.espUnits && row.spec == t.espUnits[row.espId]
    ensures forall i, j :: 0 <= i < j < |r| ==> StrLess(r[i].espId, r[j].espId)
  {
    var rows := EspRowsWhere(t, (row: EspRow) => true);
    EspIdOrder(rows);
    SortSet(rows, EspIdBefore)
  }

  /** `get_esps_by_series`: the units of that series, by ascending power rating. */
  function GetEspsBySeries(t: Tables, series: string): (r: seq<EspRow>)
    ensures forall row :: row in r <==>
              row.espId in t.espUnits && row.spec == t.espUnits[row.espId] && row.spec.series == series
    ensures forall i, j :: 0 <= i < j < |r| ==> r[i].spec.powerRatingKw <= r[j].spec.powerRatingKw
    ensures forall i, j :: 0 <= i < j < |r| ==> r[i].espId != r[j].espId
  {
    var rows := EspRowsWhere(t, (row: EspRow) => row.spec.series == series);
    PowerOrder(rows);
    var r := SortSet(rows, PowerBefore);
    forall i, j | 0 <= i < j < |r| ensures r[i].espId != r[j].espId {
      StrLessIrreflexive(r[i].espId);
      assert PowerBefore(r[i], r[j]);
    }
    r
  }

  /** `get_esps_using_assembly`: the existing units linked to the assembly, by id. */
  function GetEspsUsingAssembly(t: Tables, code: string): (r: seq<EspRow>)
    ensures forall row :: row in r <==>
              row.espId in t.espUnits && row.spec == t.espUnits[row.espId] && (row.espId, code) in t.espAssemblies
    ensures forall i, j :: 0 <= i < j < |r| ==> StrLess(r[i].espId, r[j].espId)
  {
    var rows := EspRowsWhere(t, (row: EspRow) => (row.espId, code) in t.espAssemblies);
    EspIdOrder(rows);
    SortSet(rows, EspIdBefore)
  }

  /** The assemblies of a unit as the inner join of `esp_assemblies` with
      `assemblies` returns them: links to a missing assembly do not show. */
  function LinkedAssemblies(t: Tables, espId: string): (r: seq<AssemblyRow>)
    ensures forall row :: row in r <==>
              row.assemblyCode in t.assemblies && row.name == t.assemblies[row.assemblyCode]
              && (espId, row.assemblyCode) in t.espAssemblies
    ensures forall i, j :: 0 <= i < j < |r| ==> StrLess(r[i].assemblyCode, r[j].assemblyCode)
  {
    var rows := AssemblyRowsWhere(t, (code: string) => (espId, code) in t.espAssemblies);
    AssemblyCodeOrder(rows);
    SortSet(rows, AssemblyCodeBefore)
  }

  /** The assemblies of a unit, each with its parts, in assembly-code order. */
  function LinkedViews(t: Tables, espId: string): (r: seq<AssemblyView>)
    ensures |r| == |LinkedAssemblies(t, espId)|
    ensures forall i :: 0 <= i < |r| ==>
              && r[i].assemblyCode == LinkedAssemblies(t, espId)[i].assemblyCode
              && r[i].assemblyCode in t.assemblies && r[i] == ViewOf(t, r[i].assemblyCode)
  {
    var rows := LinkedAssemblies(t, espId);
    assert forall i :: 0 <= i < |rows| ==> rows[i] in rows;
    ViewsOf(t, rows)
  }

  /** `get_esp`: the unit, its assemblies in code order with their parts, and
      `bom_parts`, the flattening that keeps the first line of each part. */
  function GetEsp(t: Tables, espId: string): (r: Option<EspView>)
    ensures r.None? <==> espId !in t.espUnits
    ensures r.Some? ==> r.value.espId == espId && r.value.spec == t.espUnits[espId]
    ensures r.Some? ==> |r.value.assemblies| == |LinkedAssemblies(t, espId)|
    ensures r.Some? ==> r.value.assemblies == LinkedViews(t, espId)
    ensures r.Some? ==> r.value.bomParts == DistinctByPart(Concat(r.value.assemblies))
    ensures r.Some? ==> NoRepeatedPart(r.value.bomParts)
  {
    if espId in t.espUnits then
      var assemblies := LinkedViews(t, espId);
      Some(EspView(espId, t.espUnits[espId], assemblies, DistinctByPart(Concat(assemblies))))
    else None
  }

  /** A part is used by a unit: some existing assembly linked to the unit has
      a link row to the existing part. */
  ghost predicate UsedBy(t: Tables, espId: string, partNumber: string)
  {
    exists code :: code in t.assemblies && (espId, code) in t.espAssemblies
      && partNumber in t.parts && (code, partNumber) in t.assemblyParts
  }

  lemma LinkedViewOrigin(t: Tables, espId: string, a: AssemblyView)
    requires a in LinkedViews(t, espId)
    ensures a.assemblyCode in t.assemblies && (espId, a.assemblyCode) in t.espAssemblies
    ensures a == ViewOf(t, a.assemblyCode)
  {
    var rows := LinkedAssemblies(t, espId);
    var i :| 0 <= i < |LinkedViews(t, espId)| && LinkedViews(t, espId)[i] == a;
    assert rows[i] in rows;
  }

  lemma LinkedViewPresent(t: Tables, espId: string, code: string)
    requires code in t.assemblies && (espId, code) in t.espAssemblies
    ensures ViewOf(t, code) in LinkedViews(t, espId)
  {
    var rows := LinkedAssemblies(t, espId);
    assert AssemblyRow(code, t.assemblies[code]) in rows;
    var i :| 0 <= i < |rows| && rows[i] == AssemblyRow(code, t.assemblies[code]);
    assert LinkedViews(t, espId)[i] == ViewOf(t, code);
  }

  /** Each line of a unit's flattened BOM is the joined line of an existing
      part in one of the unit's existing assemblies. */
  lemma EspBomSound(t: Tables, espId: string)
    requires espId in t.espUnits
    ensures forall l :: l in GetEsp(t, espId).value.bomParts ==>
              exists code :: code in t.assemblies && (espId, code) in t.espAssemblies
                && l.partNumber in t.parts && (code, l.partNumber) in t.assemblyParts
                && l == LineFor(t, code, RowOf(l))
  {
    var views := LinkedViews(t, espId);
    forall l | l in GetEsp(t, espId).value.bomParts
      ensures exists code :: code in t.assemblies && (espId, code) in t.espAssemblies
                && l.partNumber in t.parts && (code, l.partNumber) in t.assemblyParts
                && l == LineFor(t, code, RowOf(l))
    {
      assert l in Concat(views);
      var a :| a in views && l in a.parts;
      LinkedViewOrigin(t, espId, a);
      AssemblyPartsJoin(t, a.assemblyCode);
    }
  }

  /** A unit's flattened BOM names exactly the parts the unit uses. */
  lemma EspBomComplete(t: Tables, espId: string)
    requires espId in t.espUnits
    ensures forall pn :: pn in NumberSet(GetEsp(t, espId).value.bomParts) <==> UsedBy(t, espId, pn)
  {
    var views := LinkedViews(t, espId);
    var bom := GetEsp(t, espId).value.bomParts;
    EspBomSound(t, espId);
    forall pn | UsedBy(t, espId, pn) ensures pn in NumberSet(bom) {
      var code :| code in t.assemblies && (espId, code) in t.espAssemblies
        && pn in t.parts && (code, pn) in t.assemblyParts;
      LinkedViewPresent(t, espId, code);
      AssemblyPartsNumbers(t, code);
      var l :| l in ViewOf(t, code).parts && l.partNumber == pn;
      assert l in Concat(views);
    }
  }

  /** `get_esp_bom_parts`: just the flattened BOM. */
  function GetEspBomParts(t: Tables, espId: string): (r: Option<seq<BomLine>>)
    ensures r.None? <==> espId !in t.espUnits
    ensures r.Some? ==> r.value == GetEsp(t, espId).value.bomParts
    ensures r.Some? ==> NoRepeatedPart(r.value)
  {
    match GetEsp(t, espId)
    case None => None
    case Some(v) => Some(v.bomParts)
  }

  /** `get_esp_assemblies`: the unit and its assemblies, without their parts. */
  function GetEspAssemblies(t: Tables, espId: string): (r: Option<EspShallowView>)
    ensures r.None? <==> espId !in t.espUnits
    ensures r.Some? ==> r.value.espId == espId && r.value.spec == t.espUnits[espId]
    ensures r.Some? ==> forall row :: row in r.value.assemblies <==>
              row.assemblyCode in t.assemblies && row.name == t.assemblies[row.assemblyCode]
              && (espId, row.assemblyCode) in t.espAssemblies
    ensures r.Some? ==> forall i, j :: 0 <= i < j < |r.value.assemblies| ==>
              StrLess(r.value.assemblies[i].assemblyCode, r.value.assemblies[j].assemblyCode)
  {
    if espId in t.espUnits then Some(EspShallowView(espId, t.espUnits[espId], LinkedAssemblies(t, espId)))
    else None
  }

  /** `get_bom_summary`: counts over `get_esp`'s flattened BOM, or None. */
  function GetBomSummary(t: Tables, espId: string): (r: Option<BomSummary>)
    ensures r.None? <==> espId !in t.espUnits
    ensures r.Some? ==>
              var bom := GetEsp(t, espId).value.bomParts;
              var counts := r.value.partsByCategory;
              && r.value.espId == espId
              && (forall i, j :: 0 <= i < j < |counts| ==> counts[i].category != counts[j].category)
              && (forall i :: 0 <= i < |counts| ==> counts[i].count == CountIn(bom, counts[i].category) > 0)
              && (forall c :: c in CategorySet(bom) <==> exists i :: 0 <= i < |counts| && counts[i].category == c)
    ensures r.Some? ==>
              && r.value.totalParts == |GetEsp(t, espId).value.bomParts|
              && r.value.totalWeightKg == TotalWeight(GetEsp(t, espId).value.bomParts)
              && r.value.criticalPartsCount == CriticalCount(GetEsp(t, espId).value.bomParts)
              && r.value.criticalPartsCount <= r.value.totalParts
              && TotalOf(r.value.partsByCategory) == r.value.totalParts
              && r.value.assemblyCount == |LinkedAssemblies(t, espId)|
              && r.value.modelName == t.espUnits[espId].modelName
  {
    match GetEsp(t, espId)
    case None => None
    case Some(v) => Some(Summarize(espId, v.spec.modelName, v.bomParts, |v.assemblies|))
  }
}
