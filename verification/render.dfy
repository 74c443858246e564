/** `Table.GenerateRstTable`: sort the rows by the group columns, compute
    the shared width, put the group columns first, and paint the grid. */
module Render {
  import opened Strings
  import opened Tables
  import opened Ordering
  import opened Layout
  import opened Grid

  /** Every group name is a column of the table. Go calls the render
      function registered under each group name while sorting; in a table
      that satisfies `Tables.Valid` there is none for any other name. */
  ghost predicate GroupsKnown<R>(t: Table<R>, groupBy: seq<string>)
  {
    forall g :: g in groupBy ==> g in t.cols
  }

  /** The comparator handed to the sort. */
  function Less<R>(t: Table<R>, groupBy: seq<string>): (R, R) -> bool
  {
    (a: R, b: R) => GroupLess(Lookup(t), groupBy, a, b)
  }

  function SortedRows<R>(t: Table<R>, groupBy: seq<string>): (rows: seq<R>)
    ensures multiset(rows) == multiset(t.rows)
    ensures |rows| == |t.rows|
  {
    SortRowsPermutes(t.rows, Less(t, groupBy));
    SortRows(t.rows, Less(t, groupBy))
  }

  /** `maxColLen`, over the column names and every column of every row. */
  function TableWidth<R>(t: Table<R>, groupBy: seq<string>): nat
  {
    Width(t.cols, ValueMatrix(Lookup(t), SortedRows(t, groupBy), t.cols))
  }

  /** The sort leaves the rows ordered by the comparator whenever it is a
      strict weak order (always for at most one distinct group column). */
  lemma SortedRowsSorted<R(!new)>(t: Table<R>, groupBy: seq<string>)
    requires StrictWeakOrder(Less(t, groupBy))
    ensures Sorted(SortedRows(t, groupBy), Less(t, groupBy))
  {
    SortRowsSorted(t.rows, Less(t, groupBy));
  }

  /** The value a row shows under a display name. The painter reads it from
      the row's map of rendered values, which holds the table's columns
      only, so a group name that is not a column shows "". */
  function Shown<R>(t: Table<R>): (R, string) -> string
  {
    (row: R, col: string) => if col in t.cols then Lookup(t)(row, col) else ""
  }

  /** The rendered rows in display-column order. */
  function BodyValues<R>(t: Table<R>, groupBy: seq<string>): (values: seq<seq<string>>)
    ensures Rect(values, |DisplayCols(groupBy, t.cols)|)
    ensures |values| == |t.rows|
  {
    ValueMatrix(Shown(t), SortedRows(t, groupBy), DisplayCols(groupBy, t.cols))
  }

  /** The output line by line: the `-` rule (as wide as the table's column
      list), the header, two lines per row, the closing `-` rule. */
  function RenderLines<R>(t: Table<R>, groupBy: seq<string>): (lines: seq<string>)
    ensures |lines| == 3 + 2 * |t.rows|
  {
    GridLines(|t.cols|, TableWidth(t, groupBy), DisplayCols(groupBy, t.cols), BodyValues(t, groupBy))
  }

  function GenerateRstTable<R>(t: Table<R>, groupBy: seq<string>): string
  {
    Concat(RenderLines(t, groupBy))
  }

  /** The method as the source writes it: a string buffer grown by the
      opening rule, the header, the row loop and the closing rule. */
  method Generate<R>(t: Table<R>, groupBy: seq<string>) returns (buf: string, rowsAfter: seq<R>)
    ensures buf == GenerateRstTable(t, groupBy)
    ensures rowsAfter == SortedRows(t, groupBy)
  {
    var val := Lookup(t);
    var rows := SortRows(t.rows, Less(t, groupBy));
    var maxColLen := ComputeWidth(t.cols, ValueMatrix(val, rows, t.cols));
    var displayCols := DisplayCols(groupBy, t.cols);
    ghost var header := HeaderCells(maxColLen, displayCols);
    var rule := TableSplitLine('-', |t.cols|, maxColLen, []);
    var headerLine := "|";
    var i := 0;
    while i < |displayCols|
      invariant 0 <= i <= |displayCols|
      invariant headerLine == "|" + Concat(header[..i])
    {
      AppendPiece("|", header, i);
      headerLine := headerLine + ColFormat(maxColLen, displayCols[i]);
      i := i + 1;
    }
    assert header[..i] == header;
    headerLine := headerLine + "\n";
    assert headerLine == HeaderLine(maxColLen, displayCols);
    var body, _ := PaintBody(maxColLen, |displayCols|, ValueMatrix(Shown(t), rows, displayCols));
    buf := rule + headerLine + body + rule;
    rowsAfter := rows;
    ConcatFrame(rule, headerLine, BodyLines(maxColLen, |displayCols|, BodyValues(t, groupBy)), rule);
  }

  /** Every rendered value fits the width: a display column that is a
      column of the table had its values measured, and any other shows "". */
  lemma ValuesFit<R>(t: Table<R>, groupBy: seq<string>)
    ensures Fits(BodyValues(t, groupBy), TableWidth(t, groupBy))
  {
    var dc := DisplayCols(groupBy, t.cols);
    var sorted := SortedRows(t, groupBy);
    var measured := ValueMatrix(Lookup(t), sorted, t.cols);
    var values := BodyValues(t, groupBy);
    forall k, i | 0 <= k < |values| && 0 <= i < |values[k]|
      ensures |values[k][i]| <= TableWidth(t, groupBy)
    {
      if dc[i] in t.cols {
        var j :| 0 <= j < |t.cols| && t.cols[j] == dc[i];
        assert values[k][i] == measured[k][j];
      }
    }
  }

  /** Every header name fits the width. */
  lemma NamesFit<R>(t: Table<R>, groupBy: seq<string>)
    requires GroupsKnown(t, groupBy)
    ensures var dc := DisplayCols(groupBy, t.cols);
            forall i :: 0 <= i < |dc| ==> |dc[i]| <= TableWidth(t, groupBy)
  {
    var dc := DisplayCols(groupBy, t.cols);
    forall i | 0 <= i < |dc|
      ensures |dc[i]| <= TableWidth(t, groupBy)
    {
      assert dc[i] in t.cols;
    }
  }

  /** The first header cells are the group columns, in the given order. */
  lemma GroupHeadersFirst(w: nat, groupBy: seq<string>, cols: seq<string>)
    ensures var cells := HeaderCells(w, DisplayCols(groupBy, cols));
            forall i :: 0 <= i < |groupBy| ==> cells[i] == ColFormat(w, groupBy[i])
  {
  }

  /** The table's layout is drawable when the group columns are columns of
      the table and there are as many display columns as columns. */
  lemma PlanFits<R>(t: Table<R>, groupBy: seq<string>)
    requires |DisplayCols(groupBy, t.cols)| == |t.cols| && GroupsKnown(t, groupBy)
    ensures Drawable(|t.cols|, TableWidth(t, groupBy), DisplayCols(groupBy, t.cols), BodyValues(t, groupBy))
  {
    ValuesFit(t, groupBy);
    NamesFit(t, groupBy);
  }

  /** The shape of the output (see `GridShaped`): lines of one length
      each ending in a newline, the `-` rule drawn for every column of the
      table first and last, the header with one padded name per display
      column. */
  lemma OutputShape<R>(t: Table<R>, groupBy: seq<string>)
    requires |DisplayCols(groupBy, t.cols)| == |t.cols| && GroupsKnown(t, groupBy)
    ensures GridShaped(RenderLines(t, groupBy), |t.cols|, TableWidth(t, groupBy), DisplayCols(groupBy, t.cols))
  {
    PlanFits(t, groupBy);
    GridShape(|t.cols|, TableWidth(t, groupBy), DisplayCols(groupBy, t.cols), BodyValues(t, groupBy));
  }

  /** The output is its lines, `3 + 2 * |rows|` of them, each of
      `|cols| * (w + 3) + 2` characters. */
  lemma OutputLength<R>(t: Table<R>, groupBy: seq<string>)
    requires |DisplayCols(groupBy, t.cols)| == |t.cols| && GroupsKnown(t, groupBy)
    ensures |GenerateRstTable(t, groupBy)| == |RenderLines(t, groupBy)| * LineWidth(|t.cols|, TableWidth(t, groupBy))
  {
    PlanFits(t, groupBy);
    GridLength(|t.cols|, TableWidth(t, groupBy), DisplayCols(groupBy, t.cols), BodyValues(t, groupBy));
  }

  /** With one group column the rows appear in ascending Go string order of
      that column, which is shown first. */
  lemma SingleGroupSorted<R(!new)>(t: Table<R>, g: string)
    ensures var values := BodyValues(t, [g]);
            forall i, j :: 0 <= i < j < |values| ==> !StrLess(values[j][0], values[i][0])
  {
    var values := BodyValues(t, [g]);
    var dc := DisplayCols([g], t.cols);
    var sorted := SortedRows(t, [g]);
    SortBySingleGroup(Lookup(t), g, t.rows);
    assert dc[..1][0] == g;
    forall k | 0 <= k < |values|
      ensures values[k][0] == Shown(t)(sorted[k], g)
    {
    }
    if g !in t.cols {
      StrLessIrreflexive("");
    }
  }

  /** With no group columns the rows keep the order they were added in and
      the columns are shown in the order they were added. */
  lemma NoGroupLayout<R>(t: Table<R>)
    ensures DisplayCols([], t.cols) == t.cols
    ensures SortedRows(t, []) == t.rows
    ensures BodyValues(t, []) == ValueMatrix(Lookup(t), t.rows, t.cols)
  {
    RemainingNone(t.cols);
    NoGroupKeepsOrder(Lookup(t), t.rows);
    assert Less(t, []) == (a: R, b: R) => GroupLess(Lookup(t), [], a, b);
    var shown := ValueMatrix(Shown(t), t.rows, t.cols);
    var looked := ValueMatrix(Lookup(t), t.rows, t.cols);
    forall k | 0 <= k < |t.rows|
      ensures shown[k] == looked[k]
    {
      assert forall j :: 0 <= j < |t.cols| ==> t.cols[j] in t.cols;
    }
  }

  /** Whenever the width is at least 1, value line k of the body (line
      3 + 2k of the output) is the line the source writes, merged cells
      included. */
  lemma ValueLinesAsWritten<R>(t: Table<R>, groupBy: seq<string>, k: nat)
    requires k < |t.rows| && TableWidth(t, groupBy) >= 1
    ensures var values := BodyValues(t, groupBy);
            var n := |DisplayCols(groupBy, t.cols)|;
            RenderLines(t, groupBy)[3 + 2 * k]
              == ValueLineAsWritten(TableWidth(t, groupBy), RowMerge(values, n, k), values[k])
  {
    GridValueLineAsWritten(|t.cols|, TableWidth(t, groupBy), DisplayCols(groupBy, t.cols), BodyValues(t, groupBy), k);
  }

  /** A one-row table whose single column has an empty name and an empty
      value: the width is 0, the row merges with the blank `lastRow`, and
      the source's value line is one character longer than every other
      line of the output. */
  lemma EmptyColumnMisaligned()
    ensures var t := Table([0], [""], map["" := (r: int, c: string) => ""]);
            var values := BodyValues(t, []);
            && TableWidth(t, []) == 0
            && values == [[""]]
            && RowMerge(values, 1, 0) == 1
            && (forall j :: 0 <= j < |RenderLines(t, [])| ==> |RenderLines(t, [])[j]| == LineWidth(1, 0))
            && |ValueLineAsWritten(0, 1, values[0])| == LineWidth(1, 0) + 1
  {
    var t := Table([0], [""], map["" := (r: int, c: string) => ""]);
    NoGroupLayout(t);
    var values := BodyValues(t, []);
    assert Lookup(t)(0, "") == "";
    assert values[0] == [""];
    assert TableWidth(t, []) == 0;
    OutputShape(t, []);
    ValueLineAsWrittenTooLong(1, [""]);
  }
}
