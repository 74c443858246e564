/** The column planner of `GenerateRstTable`: the single cell width shared
    by every column, and the order in which the columns are displayed. */
module Layout {

  /** Each string in `s` occurs once. */
  ghost predicate Distinct(s: seq<string>)
  {
    forall i, j :: 0 <= i < j < |s| ==> s[i] != s[j]
  }

  /** The greatest length in `ss`, 0 for no strings. */
  function MaxLen(ss: seq<string>): (m: nat)
    ensures forall i :: 0 <= i < |ss| ==> |ss[i]| <= m
    ensures m == 0 || exists i :: 0 <= i < |ss| && |ss[i]| == m
  {
    if |ss| == 0 then 0
    else
      var rest := MaxLen(ss[1..]);
      assert forall i :: 1 <= i < |ss| ==> ss[1..][i - 1] == ss[i];
      if |ss[0]| > rest then |ss[0]| else rest
  }

  /** `r[k][j]` is the text of column `cols[j]` for record `rows[k]`: the
      `strRows` maps built before any output is written. */
  function ValueMatrix<R>(val: (R, string) -> string, rows: seq<R>, cols: seq<string>): (m: seq<seq<string>>)
    ensures |m| == |rows|
    ensures forall k :: 0 <= k < |rows| ==> |m[k]| == |cols|
  {
    seq(|rows|, k requires 0 <= k < |rows| => seq(|cols|, j requires 0 <= j < |cols| => val(rows[k], cols[j])))
  }

  /** Some column name or rendered value has length `w`. */
  ghost predicate Attained(w: nat, names: seq<string>, values: seq<seq<string>>)
  {
    || (exists j :: 0 <= j < |names| && |names[j]| == w)
    || (exists k, j :: 0 <= k < |values| && 0 <= j < |values[k]| && |values[k][j]| == w)
  }

  /** No column name or rendered value is longer than `w`. */
  ghost predicate Bounds(w: nat, names: seq<string>, values: seq<seq<string>>)
  {
    && (forall j :: 0 <= j < |names| ==> |names[j]| <= w)
    && (forall k, j :: 0 <= k < |values| && 0 <= j < |values[k]| ==> |values[k][j]| <= w)
  }

  /** The greatest length over the rows of `values`. */
  function MatrixMax(values: seq<seq<string>>): (m: nat)
    ensures forall k, j :: 0 <= k < |values| && 0 <= j < |values[k]| ==> |values[k][j]| <= m
    ensures m == 0 || exists k, j :: 0 <= k < |values| && 0 <= j < |values[k]| && |values[k][j]| == m
  {
    if |values| == 0 then 0
    else
      var rest := MatrixMax(values[1..]);
      var first := MaxLen(values[0]);
      assert forall k :: 1 <= k < |values| ==> values[1..][k - 1] == values[k];
      if first > rest then first else rest
  }

  /** `maxColLen`: the one width used for every cell, the greatest length
      among the column names and all rendered values, 0 when there is none. */
  function Width(names: seq<string>, values: seq<seq<string>>): (w: nat)
    ensures Bounds(w, names, values)
    ensures w == 0 || Attained(w, names, values)
  {
    var a := MaxLen(names);
    var b := MatrixMax(values);
    if a > b then a else b
  }

  /** A bound that is attained is the width: there is only one. */
  lemma WidthUnique(w: nat, names: seq<string>, values: seq<seq<string>>)
    requires Bounds(w, names, values)
    requires w == 0 || Attained(w, names, values)
    ensures w == Width(names, values)
  {
  }

  /** The loops that compute `maxColLen`: first over the column names, then
      over every row and column, raising the width whenever a longer string
      turns up. */
  method ComputeWidth(names: seq<string>, values: seq<seq<string>>) returns (w: nat)
    ensures Bounds(w, names, values)
    ensures w == 0 || Attained(w, names, values)
    ensures w == Width(names, values)
  {
    w := 0;
    var j := 0;
    while j < |names|
      invariant 0 <= j <= |names|
      invariant forall i :: 0 <= i < j ==> |names[i]| <= w
      invariant w == 0 || exists i :: 0 <= i < j && |names[i]| == w
    {
      if |names[j]| > w {
        w := |names[j]|;
      }
      j := j + 1;
    }
    var k := 0;
    while k < |values|
      invariant 0 <= k <= |values|
      invariant Bounds(w, names, values[..k])
      invariant w == 0 || Attained(w, names, values[..k])
    {
      var row := values[k];
      var c := 0;
      while c < |row|
        invariant 0 <= c <= |row|
        invariant Bounds(w, names, values[..k])
        invariant forall i :: 0 <= i < c ==> |row[i]| <= w
        invariant w == 0 || Attained(w, names, values[..k]) || exists i :: 0 <= i < c && |row[i]| == w
      {
        if |row[c]| > w {
          w := |row[c]|;
        }
        c := c + 1;
      }
      assert values[..k + 1] == values[..k] + [row];
      assert values[..k + 1][k] == row;
      k := k + 1;
    }
    assert values[..k] == values;
    WidthUnique(w, names, values);
  }

  /** The columns of `cols` that are not group columns, in insertion order. */
  function Remaining(cols: seq<string>, groupBy: seq<string>): (r: seq<string>)
  {
    if |cols| == 0 then []
    else (if cols[0] in groupBy then [] else [cols[0]]) + Remaining(cols[1..], groupBy)
  }

  /** The kept columns are exactly the columns that are not group columns. */
  lemma {:induction false} RemainingMembers(cols: seq<string>, groupBy: seq<string>)
    ensures forall x :: x in Remaining(cols, groupBy) <==> x in cols && x !in groupBy
  {
    if |cols| > 0 {
      RemainingMembers(cols[1..], groupBy);
      assert cols == [cols[0]] + cols[1..];
    }
  }

  /** A kept column occurs as often as in `cols`, a group column never. */
  lemma {:induction false} RemainingCount(cols: seq<string>, groupBy: seq<string>, x: string)
    ensures multiset(Remaining(cols, groupBy))[x] == if x in groupBy then 0 else multiset(cols)[x]
  {
    if |cols| > 0 {
      assert cols == [cols[0]] + cols[1..];
      RemainingCount(cols[1..], groupBy, x);
    }
  }

  /** Filtering distributes over concatenation; with the single-column case
      this pins down the insertion order of the kept columns. */
  lemma {:induction false} RemainingAppend(a: seq<string>, b: seq<string>, groupBy: seq<string>)
    ensures Remaining(a + b, groupBy) == Remaining(a, groupBy) + Remaining(b, groupBy)
  {
    if |a| > 0 {
      var head := if a[0] in groupBy then [] else [a[0]];
      assert (a + b)[0] == a[0];
      assert (a + b)[1..] == a[1..] + b;
      RemainingAppend(a[1..], b, groupBy);
      calc {
        Remaining(a + b, groupBy);
        head + Remaining(a[1..] + b, groupBy);
        head + (Remaining(a[1..], groupBy) + Remaining(b, groupBy));
        (head + Remaining(a[1..], groupBy)) + Remaining(b, groupBy);
      }
    } else {
      assert a + b == b;
    }
  }

  /** With no group columns every column is kept, in order. */
  lemma {:induction false} RemainingNone(cols: seq<string>)
    ensures Remaining(cols, []) == cols
  {
    if |cols| > 0 {
      RemainingNone(cols[1..]);
      assert cols == [cols[0]] + cols[1..];
    }
  }

  /** `displayCols`: the group columns in the given order, then the others in
      insertion order. */
  function DisplayCols(groupBy: seq<string>, cols: seq<string>): (dc: seq<string>)
    ensures |dc| >= |groupBy| && dc[..|groupBy|] == groupBy
    ensures forall x :: x in dc <==> x in groupBy || x in cols
  {
    RemainingMembers(cols, groupBy);
    groupBy + Remaining(cols, groupBy)
  }

  lemma {:induction false} DistinctCount(s: seq<string>, x: string)
    requires Distinct(s)
    ensures multiset(s)[x] == if x in s then 1 else 0
  {
    if |s| > 0 {
      assert s == [s[0]] + s[1..];
      DistinctCount(s[1..], x);
    }
  }

  /** A sequence in which no element occurs twice is distinct. */
  lemma CountOneDistinct(s: seq<string>)
    requires forall x :: multiset(s)[x] <= 1
    ensures Distinct(s)
  {
    forall i, j | 0 <= i < j < |s|
      ensures s[i] != s[j]
    {
      var x := s[i];
      assert s == s[..i] + [x] + s[i + 1..j] + [s[j]] + s[j + 1..];
      assert multiset(s)[x] >= multiset([x, s[j]])[x];
    }
  }

  /** When the group columns are distinct column names and the column names
      are distinct, the display order is a permutation of the columns. */
  lemma DisplayColsPermutation(groupBy: seq<string>, cols: seq<string>)
    requires Distinct(groupBy) && Distinct(cols)
    requires forall g :: g in groupBy ==> g in cols
    ensures multiset(DisplayCols(groupBy, cols)) == multiset(cols)
    ensures |DisplayCols(groupBy, cols)| == |cols|
    ensures Distinct(DisplayCols(groupBy, cols))
  {
    var dc := DisplayCols(groupBy, cols);
    assert multiset(dc) == multiset(groupBy) + multiset(Remaining(cols, groupBy));
    forall x
      ensures multiset(dc)[x] == multiset(cols)[x]
    {
      DistinctCount(groupBy, x);
      DistinctCount(cols, x);
      RemainingCount(cols, groupBy, x);
    }
    assert multiset(dc) == multiset(cols);
    assert |dc| == |multiset(dc)| == |multiset(cols)| == |cols|;
    forall x
      ensures multiset(dc)[x] <= 1
    {
      DistinctCount(cols, x);
    }
    CountOneDistinct(dc);
  }
}
