/** The derived BOM views: the de-duplicated flattening of a unit's assemblies
    (`get_esp`'s `bom_parts`) and the counts of `get_bom_summary`. Everything
    here works on lists of resolved parts and knows nothing of the tables. */
module Bom {
  import opened Schema

  /** The part numbers that occur in `lines` (the loop's `seen_parts`). */
  function NumberSet(lines: seq<BomLine>): set<string>
  {
    set i | 0 <= i < |lines| :: lines[i].partNumber
  }

  predicate NoRepeatedPart(lines: seq<BomLine>)
  {
    forall i, j :: 0 <= i < j < |lines| ==> lines[i].partNumber != lines[j].partNumber
  }

  lemma NumberSetAppend(lines: seq<BomLine>, l: BomLine)
    ensures NumberSet(lines + [l]) == NumberSet(lines) + {l.partNumber}
  {
    var xs := lines + [l];
    assert forall i :: 0 <= i < |lines| ==> xs[i] == lines[i];
    assert xs[|lines|] == l;
  }

  /** The parts of each assembly, one assembly after the other. */
  function Concat(assemblies: seq<AssemblyView>): (lines: seq<BomLine>)
    ensures forall a :: a in assemblies ==> forall l :: l in a.parts ==> l in lines
    ensures forall l :: l in lines ==> exists a :: a in assemblies && l in a.parts
  {
    if assemblies == [] then []
    else Concat(assemblies[..|assemblies| - 1]) + assemblies[|assemblies| - 1].parts
  }

  /** Keep the first line for each part number and drop later ones, in order. */
  function DistinctByPart(lines: seq<BomLine>): (r: seq<BomLine>)
    ensures NoRepeatedPart(r)
    ensures NumberSet(r) == NumberSet(lines)
    ensures forall l :: l in r ==> l in lines
    decreases |lines|
  {
    if lines == [] then []
    else
      var init := lines[..|lines| - 1];
      var last := lines[|lines| - 1];
      var r := DistinctByPart(init);
      assert lines == init + [last];
      NumberSetAppend(init, last);
      if last.partNumber in NumberSet(r) then r
      else
        assert forall i :: 0 <= i < |r| ==> r[i].partNumber in NumberSet(r);
        NumberSetAppend(r, last);
        r + [last]
  }

  /** Where a part number first occurs. */
  function FirstIndex(lines: seq<BomLine>, pn: string): (k: nat)
    requires pn in NumberSet(lines)
    ensures k < |lines| && lines[k].partNumber == pn
    ensures forall j :: 0 <= j < k ==> lines[j].partNumber != pn
  {
    if lines[0].partNumber == pn then 0
    else
      assert pn in NumberSet(lines[1..]) by {
        var i :| 0 <= i < |lines| && lines[i].partNumber == pn;
        assert lines[1..][i - 1].partNumber == pn;
      }
      1 + FirstIndex(lines[1..], pn)
  }

  lemma {:induction false} FirstIndexOfPrefix(init: seq<BomLine>, last: BomLine, pn: string)
    requires pn in NumberSet(init)
    ensures pn in NumberSet(init + [last])
    ensures FirstIndex(init + [last], pn) == FirstIndex(init, pn)
  {
    var lines := init + [last];
    NumberSetAppend(init, last);
    var k0 := FirstIndex(init, pn);
    assert lines[k0] == init[k0];
    assert forall j :: 0 <= j < k0 ==> lines[j] == init[j];
  }

  /** `l` is the first line of `lines` with its part number. */
  ghost predicate KeptFirst(lines: seq<BomLine>, l: BomLine)
  {
    l.partNumber in NumberSet(lines) && l == lines[FirstIndex(lines, l.partNumber)]
  }

  /** The part number of `a` first occurs before that of `b`. */
  ghost predicate FirstBefore(lines: seq<BomLine>, a: BomLine, b: BomLine)
  {
    a.partNumber in NumberSet(lines) && b.partNumber in NumberSet(lines)
    && FirstIndex(lines, a.partNumber) < FirstIndex(lines, b.partNumber)
  }

  lemma FirstFactsExtend(init: seq<BomLine>, last: BomLine, a: BomLine, b: BomLine)
    ensures KeptFirst(init, a) ==> KeptFirst(init + [last], a)
    ensures FirstBefore(init, a, b) ==> FirstBefore(init + [last], a, b)
  {
    if a.partNumber in NumberSet(init) {
      FirstIndexOfPrefix(init, last, a.partNumber);
      assert (init + [last])[FirstIndex(init, a.partNumber)] == init[FirstIndex(init, a.partNumber)];
    }
    if b.partNumber in NumberSet(init) {
      FirstIndexOfPrefix(init, last, b.partNumber);
    }
  }

  /** The first occurrence wins: each kept line is the first line with its
      part number, and kept lines keep the order of their first occurrences. */
  lemma {:induction false} FirstOccurrenceWins(lines: seq<BomLine>)
    ensures forall i :: 0 <= i < |DistinctByPart(lines)| ==> KeptFirst(lines, DistinctByPart(lines)[i])
    ensures forall i, j :: 0 <= i < j < |DistinctByPart(lines)| ==>
              FirstBefore(lines, DistinctByPart(lines)[i], DistinctByPart(lines)[j])
    decreases |lines|
  {
    if lines != [] {
      var init := lines[..|lines| - 1];
      var last := lines[|lines| - 1];
      assert lines == init + [last];
      FirstOccurrenceWins(init);
      var r0 := DistinctByPart(init);
      var r := DistinctByPart(lines);
      forall i, j | 0 <= i < |r0| && 0 <= j < |r0|
        ensures KeptFirst(lines, r0[i])
        ensures i < j ==> FirstBefore(lines, r0[i], r0[j])
      {
        FirstFactsExtend(init, last, r0[i], r0[j]);
      }
      if last.partNumber !in NumberSet(r0) {
        assert r == r0 + [last];
        assert last.partNumber !in NumberSet(init);
        NumberSetAppend(init, last);
        assert FirstIndex(lines, last.partNumber) == |init|;
        assert KeptFirst(lines, last);
        forall i | 0 <= i < |r0| ensures FirstBefore(lines, r0[i], last) {
          assert KeptFirst(init, r0[i]);
          FirstIndexOfPrefix(init, last, r0[i].partNumber);
        }
      }
    }
  }

  /** Flattening a list that has no repeated part is the identity. */
  lemma {:induction false} DistinctOfDistinct(lines: seq<BomLine>)
    requires NoRepeatedPart(lines)
    ensures DistinctByPart(lines) == lines
    decreases |lines|
  {
    if lines != [] {
      var init := lines[..|lines| - 1];
      var last := lines[|lines| - 1];
      DistinctOfDistinct(init);
      assert last.partNumber !in NumberSet(init);
      assert lines == init + [last];
    }
  }

  /** Flattening is idempotent. */
  lemma FlattenIdempotent(lines: seq<BomLine>)
    ensures DistinctByPart(DistinctByPart(lines)) == DistinctByPart(lines)
  {
    DistinctOfDistinct(DistinctByPart(lines));
  }

  // ---- get_bom_summary ----

  datatype CategoryCount = CategoryCount(category: string, count: nat)

  /** The fields of `get_bom_summary`'s result; `total_weight_kg` is the exact
      sum, without the rounding to two decimals. */
  datatype BomSummary = BomSummary(
    espId: string,
    modelName: string,
    totalParts: nat,
    totalWeightKg: real,
    criticalPartsCount: nat,
    partsByCategory: seq<CategoryCount>,
    assemblyCount: nat)

  function CategorySet(lines: seq<BomLine>): set<string>
  {
    set i | 0 <= i < |lines| :: lines[i].part.category
  }

  /** The categories in the order they first occur: the key order of the
      `by_category` dict, which keeps insertion order. */
  function Categories(lines: seq<BomLine>): (cats: seq<string>)
    ensures forall i, j :: 0 <= i < j < |cats| ==> cats[i] != cats[j]
    ensures forall c :: c in cats <==> c in CategorySet(lines)
    decreases |lines|
  {
    if lines == [] then []
    else
      var init := lines[..|lines| - 1];
      var c := lines[|lines| - 1].part.category;
      var cats := Categories(init);
      assert lines == init + [lines[|lines| - 1]];
      assert CategorySet(lines) == CategorySet(init) + {c};
      if c in cats then cats else cats + [c]
  }

  /** The index of the first line of category `c`. */
  function FirstOfCategory(lines: seq<BomLine>, c: string): (i: nat)
    requires c in CategorySet(lines)
    ensures i < |lines| && lines[i].part.category == c
    ensures forall j :: 0 <= j < i ==> lines[j].part.category != c
    decreases |lines|
  {
    var init := lines[..|lines| - 1];
    assert forall j :: 0 <= j < |init| ==> init[j] == lines[j];
    assert CategorySet(lines) == CategorySet(init) + {lines[|lines| - 1].part.category};
    if c in CategorySet(init) then FirstOfCategory(init, c) else |lines| - 1
  }

  /** Adding a line at the end moves no category's first line, and a new
      category's first line is the added one. */
  lemma FirstOfCategorySnoc(init: seq<BomLine>, l: BomLine, d: string)
    requires d in CategorySet(init + [l])
    ensures d in CategorySet(init) ==> FirstOfCategory(init + [l], d) == FirstOfCategory(init, d) < |init|
    ensures d !in CategorySet(init) ==> FirstOfCategory(init + [l], d) == |init|
  {
    assert (init + [l])[..|init|] == init;
  }

  /** `Categories` lists the categories in the order of their first lines:
      the insertion order of the `by_category` dict. */
  lemma {:induction false} CategoriesInFirstOrder(lines: seq<BomLine>)
    ensures var cats := Categories(lines);
      forall i, j :: 0 <= i < j < |cats| ==> FirstOfCategory(lines, cats[i]) < FirstOfCategory(lines, cats[j])
    decreases |lines|
  {
    if lines != [] {
      var init := lines[..|lines| - 1];
      var l := lines[|lines| - 1];
      assert lines == init + [l];
      CategoriesInFirstOrder(init);
      CountsSnoc(init, l);
      var cats0 := Categories(init);
      var cats := Categories(lines);
      forall i, j | 0 <= i < j < |cats|
        ensures FirstOfCategory(lines, cats[i]) < FirstOfCategory(lines, cats[j])
      {
        FirstOfCategorySnoc(init, l, cats[i]);
        FirstOfCategorySnoc(init, l, cats[j]);
        assert cats[i] == cats0[i];
        if j < |cats0| {
          assert cats[j] == cats0[j];
        }
      }
    }
  }

  /** How many lines have category `c`. */
  function CountIn(lines: seq<BomLine>, c: string): (n: nat)
    ensures n <= |lines|
    ensures n > 0 <==> c in CategorySet(lines)
    decreases |lines|
  {
    if lines == [] then 0
    else
      var init := lines[..|lines| - 1];
      assert lines == init + [lines[|lines| - 1]];
      assert CategorySet(lines) == CategorySet(init) + {lines[|lines| - 1].part.category};
      CountIn(init, c) + (if lines[|lines| - 1].part.category == c then 1 else 0)
  }

  /** `parts_by_category`: each category with its number of parts. */
  function CategoryCounts(lines: seq<BomLine>): (counts: seq<CategoryCount>)
    ensures forall i, j :: 0 <= i < j < |counts| ==> counts[i].category != counts[j].category
    ensures forall i :: 0 <= i < |counts| ==>
              counts[i].count == CountIn(lines, counts[i].category) && counts[i].count > 0
    ensures forall c :: c in CategorySet(lines) <==> exists i :: 0 <= i < |counts| && counts[i].category == c
  {
    var cats := Categories(lines);
    var counts := seq(|cats|, i requires 0 <= i < |cats| => CategoryCount(cats[i], CountIn(lines, cats[i])));
    assert forall i :: 0 <= i < |counts| ==> counts[i].category == cats[i];
    counts
  }

  function TotalOf(counts: seq<CategoryCount>): nat
  {
    if counts == [] then 0 else counts[0].count + TotalOf(counts[1..])
  }

  /** The sum, over the categories in `cats`, of the lines in that category. */
  function SumOver(cats: seq<string>, lines: seq<BomLine>): nat
  {
    if cats == [] then 0 else CountIn(lines, cats[0]) + SumOver(cats[1..], lines)
  }

  lemma {:induction false} TotalOfCounts(cats: seq<string>, lines: seq<BomLine>)
    ensures TotalOf(seq(|cats|, i requires 0 <= i < |cats| => CategoryCount(cats[i], CountIn(lines, cats[i]))))
         == SumOver(cats, lines)
  {
    var counts := seq(|cats|, i requires 0 <= i < |cats| => CategoryCount(cats[i], CountIn(lines, cats[i])));
    if cats != [] {
      TotalOfCounts(cats[1..], lines);
      assert counts[1..] == seq(|cats[1..]|, i requires 0 <= i < |cats[1..]| => CategoryCount(cats[1..][i], CountIn(lines, cats[1..][i])));
    }
  }

  /** Adding one line of category `c` adds one to the sum over any list of
      distinct categories that holds `c`, and nothing to one that lacks it. */
  lemma {:induction false} SumOverAppend(cats: seq<string>, init: seq<BomLine>, last: BomLine)
    requires forall i, j :: 0 <= i < j < |cats| ==> cats[i] != cats[j]
    ensures SumOver(cats, init + [last]) == SumOver(cats, init) + (if last.part.category in cats then 1 else 0)
  {
    var lines := init + [last];
    if cats != [] {
      assert lines[..|lines| - 1] == init;
      SumOverAppend(cats[1..], init, last);
      assert last.part.category in cats <==> last.part.category == cats[0] || last.part.category in cats[1..];
      assert cats[0] !in cats[1..];
    }
  }

  /** Categories absent from `lines` contribute nothing. */
  lemma {:induction false} SumOverWider(cats: seq<string>, c: string, lines: seq<BomLine>)
    requires c !in CategorySet(lines)
    ensures SumOver(cats + [c], lines) == SumOver(cats, lines)
  {
    if cats != [] {
      assert (cats + [c])[1..] == cats[1..] + [c];
      SumOverWider(cats[1..], c, lines);
    } else {
      assert SumOver([c], lines) == CountIn(lines, c) + SumOver([], lines);
    }
  }

  /** Every line lands in exactly one category. */
  lemma {:induction false} CategoriesCoverAll(lines: seq<BomLine>)
    ensures SumOver(Categories(lines), lines) == |lines|
    decreases |lines|
  {
    if lines != [] {
      var init := lines[..|lines| - 1];
      var last := lines[|lines| - 1];
      assert lines == init + [last];
      CategoriesCoverAll(init);
      var cats0 := Categories(init);
      var c := last.part.category;
      if c in cats0 {
        SumOverAppend(cats0, init, last);
      } else {
        SumOverWider(cats0, c, init);
        assert (cats0 + [c])[..|cats0|] == cats0;
        SumOverAppend(cats0 + [c], init, last);
        assert c in cats0 + [c];
      }
    }
  }

  /** The per-category counts add up to the number of lines. */
  lemma CategoryCountsTotal(lines: seq<BomLine>)
    ensures TotalOf(CategoryCounts(lines)) == |lines|
  {
    TotalOfCounts(Categories(lines), lines);
    CategoriesCoverAll(lines);
  }

  /** `sum(p["weight_kg"] for p in parts)`: one weight per line, whatever the
      line's quantity. */
  function TotalWeight(lines: seq<BomLine>): (w: real)
    ensures (forall i :: 0 <= i < |lines| ==> lines[i].part.weightKg >= 0.0) ==> w >= 0.0
  {
    if lines == [] then 0.0
    else
      var init := lines[..|lines| - 1];
      assert forall i :: 0 <= i < |init| ==> init[i] == lines[i];
      TotalWeight(init) + lines[|lines| - 1].part.weightKg
  }

  /** The total weight reads only the parts: lines that differ only in their
      link columns (`quantity`, `bom_level`) weigh the same. */
  lemma {:induction false} TotalWeightIgnoresLinks(a: seq<BomLine>, b: seq<BomLine>)
    requires |a| == |b|
    requires forall i :: 0 <= i < |a| ==> a[i].partNumber == b[i].partNumber && a[i].part == b[i].part
    ensures TotalWeight(a) == TotalWeight(b)
  {
    if a != [] {
      TotalWeightIgnoresLinks(a[..|a| - 1], b[..|b| - 1]);
    }
  }

  /** How many lines are critical parts. */
  function CriticalCount(lines: seq<BomLine>): (n: nat)
    ensures n <= |lines|
    ensures n == |lines| <==> forall i :: 0 <= i < |lines| ==> lines[i].part.isCritical
    ensures n == 0 <==> forall i :: 0 <= i < |lines| ==> !lines[i].part.isCritical
  {
    if lines == [] then 0
    else
      var init := lines[..|lines| - 1];
      assert forall i :: 0 <= i < |init| ==> init[i] == lines[i];
      CriticalCount(init) + (if lines[|lines| - 1].part.isCritical then 1 else 0)
  }

  /** The summary of a flattened BOM: the totals are counts over that very list,
      and the category counts split it without loss or overlap. */
  function Summarize(espId: string, modelName: string, bom: seq<BomLine>, assemblyCount: nat): (s: BomSummary)
    ensures s.totalParts == |bom|
    ensures s.criticalPartsCount <= s.totalParts
    ensures TotalOf(s.partsByCategory) == s.totalParts
    ensures forall i :: 0 <= i < |s.partsByCategory| ==>
              s.partsByCategory[i].count > 0 && s.partsByCategory[i].category in CategorySet(bom)
    ensures forall c :: c in CategorySet(bom) ==>
              exists i :: 0 <= i < |s.partsByCategory| && s.partsByCategory[i] == CategoryCount(c, CountIn(bom, c))
    ensures s.totalWeightKg == TotalWeight(bom) && s.criticalPartsCount == CriticalCount(bom)
    ensures s.partsByCategory == CategoryCounts(bom)
    ensures s.assemblyCount == assemblyCount && s.espId == espId && s.modelName == modelName
  {
    CategoryCountsTotal(bom);
    var counts := CategoryCounts(bom);
    assert forall c :: c in CategorySet(bom) ==> exists i :: 0 <= i < |counts| && counts[i] == CategoryCount(c, CountIn(bom, c)) by {
      var cats := Categories(bom);
      forall c | c in CategorySet(bom)
        ensures exists i :: 0 <= i < |counts| && counts[i] == CategoryCount(c, CountIn(bom, c))
      {
        var i :| 0 <= i < |cats| && cats[i] == c;
        assert counts[i] == CategoryCount(c, CountIn(bom, c));
      }
    }
    BomSummary(espId, modelName, |bom|, TotalWeight(bom), CriticalCount(bom), counts, assemblyCount)
  }

  // ---- one line at a time: what a loop over the lines adds per step ----

  lemma ConcatSnoc(assemblies: seq<AssemblyView>, i: nat)
    requires i < |assemblies|
    ensures Concat(assemblies[..i + 1]) == Concat(assemblies[..i]) + assemblies[i].parts
  {
    assert assemblies[..i + 1][..i] == assemblies[..i];
  }

  lemma DistinctByPartSnoc(lines: seq<BomLine>, l: BomLine)
    ensures DistinctByPart(lines + [l]) ==
      if l.partNumber in NumberSet(DistinctByPart(lines)) then DistinctByPart(lines) else DistinctByPart(lines) + [l]
  {
    assert (lines + [l])[..|lines|] == lines;
  }

  lemma CountsSnoc(lines: seq<BomLine>, l: BomLine)
    ensures Categories(lines + [l]) ==
      if l.part.category in Categories(lines) then Categories(lines) else Categories(lines) + [l.part.category]
    ensures forall c :: CountIn(lines + [l], c) == CountIn(lines, c) + if l.part.category == c then 1 else 0
  {
    assert (lines + [l])[..|lines|] == lines;
  }

  lemma SumsSnoc(lines: seq<BomLine>, l: BomLine)
    ensures TotalWeight(lines + [l]) == TotalWeight(lines) + l.part.weightKg
    ensures CriticalCount(lines + [l]) == CriticalCount(lines) + if l.part.isCritical then 1 else 0
  {
    assert (lines + [l])[..|lines|] == lines;
  }
}
