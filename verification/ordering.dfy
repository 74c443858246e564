/** The row ordering of `GenerateRstTable`: the comparator built from the
    group columns, and the sort applied with it. */
module Ordering {
  import opened Strings

  /** The default comparator: walking the group columns in order, it answers
      true as soon as one column renders `a` strictly before `b` in Go's
      string order, and false when none does. It is not a lexicographic
      comparison: a later column is consulted even when an earlier one
      renders `a` after `b`. */
  function GroupLess<R>(val: (R, string) -> string, groupBy: seq<string>, a: R, b: R): (r: bool)
    ensures r <==> exists i :: 0 <= i < |groupBy| && StrLess(val(a, groupBy[i]), val(b, groupBy[i]))
    ensures |groupBy| == 0 ==> !r
  {
    if |groupBy| == 0 then false
    else if StrLess(val(a, groupBy[0]), val(b, groupBy[0])) then true
    else
      var rest := GroupLess(val, groupBy[1..], a, b);
      assert forall i :: 1 <= i < |groupBy| ==> groupBy[1..][i - 1] == groupBy[i];
      rest
  }


  ghost predicate Irreflexive<R(!new)>(less: (R, R) -> bool)
  {
    forall a :: !less(a, a)
  }

  ghost predicate Transitive<R(!new)>(less: (R, R) -> bool)
  {
    forall a, b, c :: less(a, b) && less(b, c) ==> less(a, c)
  }

  /** Neither is less than the other. */
  ghost predicate Incomparable<R>(less: (R, R) -> bool, a: R, b: R)
  {
    !less(a, b) && !less(b, a)
  }

  /** What Go's sort package requires of `less` for its result to be sorted. */
  ghost predicate StrictWeakOrder<R(!new)>(less: (R, R) -> bool)
  {
    && Irreflexive(less)
    && Transitive(less)
    && forall a, b, c :: Incomparable(less, a, b) && Incomparable(less, b, c) ==> Incomparable(less, a, c)
  }

  /** With two group columns whose values cross, each row is "less" than
      the other, so the comparator is not a strict weak order. */
  lemma GroupLessBothWays<R(!new)>(val: (R, string) -> string, g1: string, g2: string, a: R, b: R)
    requires StrLess(val(a, g1), val(b, g1)) && StrLess(val(b, g2), val(a, g2))
    ensures GroupLess(val, [g1, g2], a, b) && GroupLess(val, [g1, g2], b, a)
    ensures !StrictWeakOrder((x: R, y: R) => GroupLess(val, [g1, g2], x, y))
  {
    var less := (x: R, y: R) => GroupLess(val, [g1, g2], x, y);
    assert [g1, g2][0] == g1 && [g1, g2][1] == g2;
    assert less(a, b) && less(b, a);
    if Transitive(less) {
      assert less(a, a);
    }
  }

  /** A strict weak order is negatively transitive. */
  lemma NegativelyTransitive<R(!new)>(less: (R, R) -> bool, a: R, b: R, c: R)
    requires StrictWeakOrder(less)
    requires !less(a, b) && !less(b, c)
    ensures !less(a, c)
  {
    if less(a, c) && !less(b, a) && !less(c, b) {
      assert Incomparable(less, a, b) && Incomparable(less, b, c);
    }
  }

  /** The comparator for a single group column g is a strict weak order:
      two rows are tied exactly when they render g alike. */
  lemma {:induction false} SingleGroupIsStrictWeakOrder<R(!new)>(val: (R, string) -> string, g: string)
    ensures StrictWeakOrder((a: R, b: R) => GroupLess(val, [g], a, b))
    ensures forall a, b :: GroupLess(val, [g], a, b) <==> StrLess(val(a, g), val(b, g))
  {
    var less := (a: R, b: R) => GroupLess(val, [g], a, b);
    forall a, b
      ensures GroupLess(val, [g], a, b) <==> StrLess(val(a, g), val(b, g))
    {
      assert [g][0] == g;
    }
    forall a
      ensures !less(a, a)
    {
      StrLessIrreflexive(val(a, g));
    }
    forall a, b, c | less(a, b) && less(b, c)
      ensures less(a, c)
    {
      StrLessTransitive(val(a, g), val(b, g), val(c, g));
    }
    forall a, b, c | Incomparable(less, a, b) && Incomparable(less, b, c)
      ensures Incomparable(less, a, c)
    {
      StrLessTotal(val(a, g), val(b, g));
      StrLessTotal(val(b, g), val(c, g));
      StrLessIrreflexive(val(a, g));
    }
  }

  /** No later element is less than an earlier one. */
  ghost predicate Sorted<R>(s: seq<R>, less: (R, R) -> bool)
  {
    forall i, j :: 0 <= i < j < |s| ==> !less(s[j], s[i])
  }

  /** One step of straight insertion: `x` moves left past every element it
      is less than, stopping at the first one it is not less than. */
  function InsertLeft<R>(sorted: seq<R>, x: R, less: (R, R) -> bool): (r: seq<R>)
    ensures |r| == |sorted| + 1
  {
    if |sorted| == 0 || !less(x, sorted[|sorted| - 1]) then sorted + [x]
    else InsertLeft(sorted[..|sorted| - 1], x, less) + [sorted[|sorted| - 1]]
  }

  /** Insertion adds `x` and loses nothing. */
  lemma {:induction false} InsertLeftPermutes<R>(sorted: seq<R>, x: R, less: (R, R) -> bool)
    ensures multiset(InsertLeft(sorted, x, less)) == multiset(sorted) + multiset{x}
  {
    if |sorted| > 0 && less(x, sorted[|sorted| - 1]) {
      var init := sorted[..|sorted| - 1];
      InsertLeftPermutes(init, x, less);
      assert sorted == init + [sorted[|sorted| - 1]];
    }
  }

  /** The row sort: straight insertion sort, each element in turn inserted
      into the sorted prefix before it. Go's `sort.Slice` leaves the
      algorithm unspecified; this is one admissible choice. */
  function SortRows<R>(rows: seq<R>, less: (R, R) -> bool): (r: seq<R>)
    ensures |r| == |rows|
  {
    if |rows| == 0 then []
    else InsertLeft(SortRows(rows[..|rows| - 1], less), rows[|rows| - 1], less)
  }

  /** Sorting keeps every row, as often as it occurs. */
  lemma {:induction false} SortRowsPermutes<R>(rows: seq<R>, less: (R, R) -> bool)
    ensures multiset(SortRows(rows, less)) == multiset(rows)
  {
    if |rows| > 0 {
      var init := rows[..|rows| - 1];
      SortRowsPermutes(init, less);
      InsertLeftPermutes(SortRows(init, less), rows[|rows| - 1], less);
      assert rows == init + [rows[|rows| - 1]];
    }
  }

  lemma {:induction false} InsertLeftSorted<R(!new)>(sorted: seq<R>, x: R, less: (R, R) -> bool)
    requires StrictWeakOrder(less)
    requires Sorted(sorted, less)
    ensures Sorted(InsertLeft(sorted, x, less), less)
  {
    var r := InsertLeft(sorted, x, less);
    if |sorted| == 0 {
    } else if !less(x, sorted[|sorted| - 1]) {
      var last := sorted[|sorted| - 1];
      forall i | 0 <= i < |sorted|
        ensures !less(x, sorted[i])
      {
        if i < |sorted| - 1 {
          NegativelyTransitive(less, x, last, sorted[i]);
        }
      }
    } else {
      var init := sorted[..|sorted| - 1];
      var last := sorted[|sorted| - 1];
      InsertLeftSorted(init, x, less);
      var m := InsertLeft(init, x, less);
      InsertLeftPermutes(init, x, less);
      assert r == m + [last];
      forall i | 0 <= i < |m|
        ensures !less(last, m[i])
      {
        assert m[i] in multiset(m);
        if m[i] == x {
          assert !less(last, x);
        } else {
          assert m[i] in multiset(init);
          var k :| 0 <= k < |init| && init[k] == m[i];
          assert sorted[k] == m[i];
        }
      }
    }
  }

  /** Sorting with a strict weak order yields a sorted permutation. */
  lemma {:induction false} SortRowsSorted<R(!new)>(rows: seq<R>, less: (R, R) -> bool)
    requires StrictWeakOrder(less)
    ensures Sorted(SortRows(rows, less), less)
  {
    if |rows| > 0 {
      SortRowsSorted(rows[..|rows| - 1], less);
      InsertLeftSorted(SortRows(rows[..|rows| - 1], less), rows[|rows| - 1], less);
    }
  }

  /** With one group column the sorted rows are in ascending string order of
      that column; the rows are the same rows, as a multiset. */
  lemma SortBySingleGroup<R(!new)>(val: (R, string) -> string, g: string, rows: seq<R>)
    ensures var s := SortRows(rows, (a: R, b: R) => GroupLess(val, [g], a, b));
            && multiset(s) == multiset(rows)
            && forall i, j :: 0 <= i < j < |s| ==> !StrLess(val(s[j], g), val(s[i], g))
  {
    var less := (a: R, b: R) => GroupLess(val, [g], a, b);
    SingleGroupIsStrictWeakOrder(val, g);
    SortRowsSorted(rows, less);
    SortRowsPermutes(rows, less);
  }

  /** A comparator that never holds leaves every row where it is. */
  lemma {:induction false} SortRowsKeepsOrder<R>(rows: seq<R>, less: (R, R) -> bool)
    requires forall a, b :: !less(a, b)
    ensures SortRows(rows, less) == rows
  {
    if |rows| > 0 {
      var init := rows[..|rows| - 1];
      var x := rows[|rows| - 1];
      SortRowsKeepsOrder(init, less);
      assert |init| > 0 ==> !less(x, init[|init| - 1]);
      assert InsertLeft(init, x, less) == init + [x];
      assert rows == init + [x];
    }
  }

  /** With no group columns the comparator never holds, so the rows keep
      the order in which they were added. */
  lemma NoGroupKeepsOrder<R>(val: (R, string) -> string, rows: seq<R>)
    ensures SortRows(rows, (a: R, b: R) => GroupLess(val, [], a, b)) == rows
  {
    SortRowsKeepsOrder(rows, (a: R, b: R) => GroupLess(val, [], a, b));
  }
}
