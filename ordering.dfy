/** Orders used by the store's `ORDER BY` clauses, and a sort of a finite set
    by any strict total order. */
module Ordering {

  /** SQLite's BINARY collation on TEXT: compare code point by code point, and a
      proper prefix sorts first. For UTF-8 text this is the order of the code
      points, which is the order of Dafny's `char`. */
  predicate StrLess(a: string, b: string)
    decreases |a|
  {
    if |a| == 0 then |b| > 0
    else if |b| == 0 then false
    else a[0] < b[0] || (a[0] == b[0] && StrLess(a[1..], b[1..]))
  }

  lemma {:induction false} StrLessIrreflexive(a: string)
    ensures !StrLess(a, a)
    decreases |a|
  {
    if |a| > 0 {
      StrLessIrreflexive(a[1..]);
    }
  }

  lemma {:induction false} StrLessTransitive(a: string, b: string, c: string)
    requires StrLess(a, b) && StrLess(b, c)
    ensures StrLess(a, c)
    decreases |a|
  {
    if |a| > 0 && a[0] == b[0] && b[0] == c[0] {
      StrLessTransitive(a[1..], b[1..], c[1..]);
    }
  }

  lemma {:induction false} StrLessTotal(a: string, b: string)
    requires a != b
    ensures StrLess(a, b) || StrLess(b, a)
    decreases |a|
  {
    if |a| > 0 && |b| > 0 && a[0] == b[0] {
      assert a == [a[0]] + a[1..] && b == [b[0]] + b[1..];
      StrLessTotal(a[1..], b[1..]);
    }
  }

  /** `less` is irreflexive, transitive and total on the elements of `s`. */
  ghost predicate StrictTotalOn<T>(less: (T, T) -> bool, s: set<T>)
  {
    && (forall a :: a in s ==> !less(a, a))
    && (forall a, b, c :: a in s && b in s && c in s && less(a, b) && less(b, c) ==> less(a, c))
    && (forall a, b :: a in s && b in s && a != b ==> less(a, b) || less(b, a))
  }

  predicate IsMinimum<T(==)>(m: T, s: set<T>, less: (T, T) -> bool)
  {
    m in s && forall y :: y in s && y != m ==> less(m, y)
  }

  /** Strictly ascending, hence also free of repetitions. */
  ghost predicate Ascending<T>(r: seq<T>, less: (T, T) -> bool)
  {
    forall i, j :: 0 <= i < j < |r| ==> less(r[i], r[j])
  }

  lemma StrLessStrictTotal(s: set<string>)
    ensures StrictTotalOn(StrLess, s)
  {
    forall a | a in s ensures !StrLess(a, a) {
      StrLessIrreflexive(a);
    }
    forall a, b, c | a in s && b in s && c in s && StrLess(a, b) && StrLess(b, c)
      ensures StrLess(a, c)
    {
      StrLessTransitive(a, b, c);
    }
    forall a, b | a in s && b in s && a != b ensures StrLess(a, b) || StrLess(b, a) {
      StrLessTotal(a, b);
    }
  }

  lemma {:induction false} MinimumExists<T>(s: set<T>, less: (T, T) -> bool)
    requires s != {} && StrictTotalOn(less, s)
    ensures exists m :: IsMinimum(m, s, less)
    decreases |s|
  {
    var x :| x in s;
    var rest := s - {x};
    if rest == {} {
      assert s == {x};
      assert IsMinimum(x, s, less);
    } else {
      MinimumExists(rest, less);
      var m :| IsMinimum(m, rest, less);
      if less(x, m) {
        assert IsMinimum(x, s, less);
      } else {
        assert IsMinimum(m, s, less);
      }
    }
  }

  /** The elements of `s` in ascending `less` order: the result of an
      `ORDER BY` over a set of rows whose sort key is unique. */
  function SortSet<T(==,!new)>(s: set<T>, less: (T, T) -> bool): (r: seq<T>)
    requires StrictTotalOn(less, s)
    ensures |r| == |s|
    ensures forall x :: x in r <==> x in s
    ensures Ascending(r, less)
    decreases |s|
  {
    if s == {} then []
    else
      MinimumExists(s, less);
      var m :| IsMinimum(m, s, less);
      [m] + SortSet(s - {m}, less)
  }

  /** An ascending listing of a set is unique: whatever computes the rows of an
      `ORDER BY` on a unique key, it yields `SortSet`'s sequence. */
  lemma {:induction false} AscendingUnique<T(!new)>(r: seq<T>, s: set<T>, less: (T, T) -> bool)
    requires StrictTotalOn(less, s)
    requires Ascending(r, less)
    requires forall x :: x in r <==> x in s
    ensures r == SortSet(s, less)
    decreases |r|
  {
    var q := SortSet(s, less);
    if r == [] {
      assert s == {};
    } else {
      assert r[0] in s;
      assert IsMinimum(r[0], s, less) by {
        forall y | y in s && y != r[0] ensures less(r[0], y) {
          var j :| 0 <= j < |r| && r[j] == y;
          assert j != 0;
        }
      }
      assert q[0] == r[0] by {
        assert IsMinimum(q[0], s, less) by {
          forall y | y in s && y != q[0] ensures less(q[0], y) {
            var j :| 0 <= j < |q| && q[j] == y;
          }
        }
      }
      var s' := s - {r[0]};
      forall x ensures x in r[1..] <==> x in s' {
        if x in r[1..] {
          var j :| 1 <= j < |r| && r[j] == x;
          assert less(r[0], r[j]);
        }
      }
      AscendingUnique(r[1..], s', less);
      assert q == [q[0]] + SortSet(s', less);
    }
  }
}
