/** The grid painter of `GenerateRstTable`: border segments, value cells,
    `tableSplitLine`, and the per-row merge cursor that decides which cells
    extend the cell above. Every cell is `w + 3` characters wide: `w + 2`
    of border or padded value and one `+` or `|` closing it. */
module Grid {
  import opened Strings

  /** `splitCell`: one border segment, `w + 2` fill characters and a `+`. */
  function SplitCell(c: char, w: nat): (r: string)
    ensures |r| == w + 3
  {
    Repeat(c, w + 2) + "+"
  }

  lemma SplitCellChars(c: char, w: nat)
    ensures forall i :: 0 <= i < w + 2 ==> SplitCell(c, w)[i] == c
    ensures SplitCell(c, w)[w + 2] == '+'
  {
  }

  /** `fmt.Sprintf(colFormat(w), s)`, the value cell `" %-{w}s |"`. */
  function ColFormat(w: nat, s: string): (r: string)
    ensures |s| <= w ==> |r| == w + 3
    ensures |r| >= |s| + 3
  {
    " " + Pad(s, w) + " |"
  }

  /** A value cell is a space, the value, spaces up to the width, then " |". */
  lemma ColFormatChars(w: nat, s: string)
    ensures var r := ColFormat(w, s);
            && r[0] == ' ' && r[1..|s| + 1] == s && r[|r| - 2..] == " |"
            && forall i :: |s| + 1 <= i < |r| - 1 ==> r[i] == ' '
  {
  }

  /** The value cell of a merged column: blank padding of the full width. */
  function BlankCell(w: nat): (r: string)
    ensures |r| == w + 3
  {
    ColFormat(w, "")
  }

  /** The merged value cell as the source writes it: the string " " put
      through the value format. */
  function MergedCellAsWritten(w: nat): (r: string)
    ensures |r| == if w == 0 then 4 else w + 3
  {
    ColFormat(w, " ")
  }

  /** Whenever the width is at least 1 the source's merged cell is the
      blank cell. */
  lemma MergedCellAsWrittenAgrees(w: nat)
    requires w >= 1
    ensures MergedCellAsWritten(w) == BlankCell(w)
  {
  }

  /** With width 0 (every column name and value empty) the source's merged
      cell is one character wider than every other cell. */
  lemma MergedCellAsWrittenMisaligned()
    ensures |MergedCellAsWritten(0)| == 4
    ensures |BlankCell(0)| == 3 && |ColFormat(0, "")| == 3 && |SplitCell('-', 0)| == 3
  {
  }

  /** One output line: a leading `+` or `|`, the cells, a newline. */
  function Line(lead: char, cells: seq<string>): string
  {
    [lead] + Concat(cells) + "\n"
  }

  /** Cell i of a line whose cells all have length `len`: the characters
      after the leading one, from position 1 + i * len on. */
  function Segment(line: string, i: nat, len: nat): string
    requires 1 + i * len + len <= |line|
  {
    line[1 + i * len .. 1 + i * len + len]
  }

  lemma ShiftSlice(lead: char, body: string, x: nat, len: nat)
    requires x + len <= |body|
    ensures ([lead] + body + "\n")[1 + x .. 1 + x + len] == body[x .. x + len]
  {
  }

  /** The length of every line of a table with `n` columns of width `w`:
      the leading character, `n` cells of `w + 3`, the newline. */
  function LineWidth(n: nat, w: nat): nat
  {
    n * (w + 3) + 2
  }

  /** A line of the grid: `LineWidth(n, w)` characters, the last a newline. */
  ghost predicate Shaped(line: string, n: nat, w: nat)
  {
    |line| == LineWidth(n, w) && line[|line| - 1] == '\n'
  }

  /** Cell i of `cells` is segment i of `line`, for every i. */
  ghost predicate CellsAt(line: string, cells: seq<string>, len: nat)
  {
    forall i :: 0 <= i < |cells| ==> 1 + i * len + len < |line| && Segment(line, i, len) == cells[i]
  }

  /** A line of cells of length `len` each: its length, its first and its
      last character. */
  lemma LineShape(lead: char, cells: seq<string>, len: nat)
    requires forall i :: 0 <= i < |cells| ==> |cells[i]| == len
    ensures |Line(lead, cells)| == |cells| * len + 2
    ensures Line(lead, cells)[0] == lead
    ensures Line(lead, cells)[|Line(lead, cells)| - 1] == '\n'
  {
    ConcatLength(cells, len);
  }

  /** In a line of cells of length `len` each, cell i is segment i. */
  lemma LineCells(lead: char, cells: seq<string>, len: nat)
    requires forall i :: 0 <= i < |cells| ==> |cells[i]| == len
    ensures CellsAt(Line(lead, cells), cells, len)
  {
    var body := Concat(cells);
    ConcatUniform(cells, len);
    forall i | 0 <= i < |cells|
      ensures 1 + i * len + len < |Line(lead, cells)| && Segment(Line(lead, cells), i, len) == cells[i]
    {
      ShiftSlice(lead, body, i * len, len);
    }
  }

  /** The border segments of `tableSplitLine`: blank for a skipped index,
      `c` otherwise. */
  function SplitCells(c: char, nCols: nat, w: nat, skips: seq<int>): (cells: seq<string>)
    ensures |cells| == nCols
  {
    seq(nCols, i => SplitCell(if i in skips then ' ' else c, w))
  }

  /** `tableSplitLine`: "" when there are more skips than columns, otherwise
      a border line with one segment per column. */
  function TableSplitLine(c: char, nCols: nat, w: nat, skips: seq<int>): (r: string)
    ensures r == "" <==> |skips| > nCols
  {
    if |skips| > nCols then "" else Line('+', SplitCells(c, nCols, w, skips))
  }

  /** The layout of a split line: `nCols * (w + 3) + 2` characters, a `+`
      first, a newline last, and segment i the border piece `SplitCells`
      gives for column i: `w + 2` spaces when i is skipped and `w + 2`
      copies of `c` otherwise, then a `+`. */
  lemma SplitLineLayout(c: char, nCols: nat, w: nat, skips: seq<int>)
    requires |skips| <= nCols
    ensures var r := TableSplitLine(c, nCols, w, skips);
            && Shaped(r, nCols, w) && r[0] == '+'
            && CellsAt(r, SplitCells(c, nCols, w, skips), w + 3)
  {
    LineShape('+', SplitCells(c, nCols, w, skips), w + 3);
    LineCells('+', SplitCells(c, nCols, w, skips), w + 3);
  }

  /** The longest prefix on which the stored previous values `last` and the
      current row `cur` agree. */
  function MergeCount(last: seq<string>, cur: seq<string>): (k: nat)
    requires |last| == |cur|
    ensures k <= |cur|
    ensures forall j :: 0 <= j < k ==> last[j] == cur[j]
    ensures k < |cur| ==> last[k] != cur[k]
  {
    if |cur| == 0 || last[0] != cur[0] then 0
    else
      var rest := MergeCount(last[1..], cur[1..]);
      assert forall j :: 1 <= j < 1 + rest ==> last[1..][j - 1] == last[j] && cur[1..][j - 1] == cur[j];
      1 + rest
  }

  /** Column i merges exactly when it and every column to its left equal
      the stored previous values. */
  lemma MergeIsEqualPrefix(last: seq<string>, cur: seq<string>, i: nat)
    requires |last| == |cur| && i < |cur|
    ensures i < MergeCount(last, cur) <==> forall j :: 0 <= j <= i ==> last[j] == cur[j]
  {
  }

  /** The border cell above a value: open (spaces) when the column merges,
      drawn with `fill` when it starts new. */
  function TopCell(fill: char, w: nat, merged: bool): string
  {
    SplitCell(if merged then ' ' else fill, w)
  }

  /** The value cell: blank when the column merges, the padded value when it
      starts new. */
  function ValueCell(w: nat, merged: bool, value: string): string
  {
    if merged then BlankCell(w) else ColFormat(w, value)
  }

  /** The top border of a body row whose first `k` columns merge. */
  function TopCells(fill: char, w: nat, k: nat, n: nat): (cells: seq<string>)
    ensures |cells| == n
  {
    seq(n, i => SplitCell(if i < k then ' ' else fill, w))
  }

  /** The value line of a body row whose first `k` columns merge. */
  function ValueCells(w: nat, k: nat, cur: seq<string>): (cells: seq<string>)
    ensures |cells| == |cur|
  {
    seq(|cur|, i requires 0 <= i < |cur| => if i < k then BlankCell(w) else ColFormat(w, cur[i]))
  }

  function TopLine(fill: char, w: nat, k: nat, n: nat): string
  {
    Line('+', TopCells(fill, w, k, n))
  }

  function ValueLine(w: nat, k: nat, cur: seq<string>): string
  {
    Line('|', ValueCells(w, k, cur))
  }

  /** The value cells as the source writes them: a merged column gets " "
      put through the value format instead of the blank cell. */
  function ValueCellsAsWritten(w: nat, k: nat, cur: seq<string>): (cells: seq<string>)
    ensures |cells| == |cur|
  {
    seq(|cur|, i requires 0 <= i < |cur| => if i < k then MergedCellAsWritten(w) else ColFormat(w, cur[i]))
  }

  function ValueLineAsWritten(w: nat, k: nat, cur: seq<string>): string
  {
    Line('|', ValueCellsAsWritten(w, k, cur))
  }

  /** With a width of at least 1 the source's value line is the model's. */
  lemma ValueLineAsWrittenAgrees(w: nat, k: nat, cur: seq<string>)
    requires w >= 1
    ensures ValueLineAsWritten(w, k, cur) == ValueLine(w, k, cur)
  {
    MergedCellAsWrittenAgrees(w);
    assert ValueCellsAsWritten(w, k, cur) == ValueCells(w, k, cur);
  }

  /** With width 0 (every name and value empty) the model's value line is
      as long as the rules, and the source's is one character longer for
      every merged column. */
  lemma {:induction false} ValueLineAsWrittenTooLong(k: nat, cur: seq<string>)
    requires k <= |cur|
    requires forall i :: 0 <= i < |cur| ==> cur[i] == ""
    ensures |ValueLine(0, k, cur)| == LineWidth(|cur|, 0)
    ensures |ValueLineAsWritten(0, k, cur)| == LineWidth(|cur|, 0) + k
  {
    var cells := ValueCellsAsWritten(0, k, cur);
    assert cells == cells[..k] + cells[k..];
    ConcatAppend(cells[..k], cells[k..]);
    forall i | 0 <= i < k
      ensures |cells[..k][i]| == 4
    {
      assert cells[..k][i] == MergedCellAsWritten(0);
    }
    ConcatLength(cells[..k], 4);
    ConcatLength(cells[k..], 3);
    forall i | 0 <= i < |cur|
      ensures |ValueCells(0, k, cur)[i]| == 3
    {
      assert |cur[i]| == 0;
    }
    ConcatLength(ValueCells(0, k, cur), 3);
  }

  /** The header cells: one value cell per display column name. */
  function HeaderCells(w: nat, displayCols: seq<string>): (cells: seq<string>)
    ensures |cells| == |displayCols|
  {
    seq(|displayCols|, i requires 0 <= i < |displayCols| => ColFormat(w, displayCols[i]))
  }

  function HeaderLine(w: nat, displayCols: seq<string>): string
  {
    Line('|', HeaderCells(w, displayCols))
  }

  /** The header line of names no longer than `w`: one cell of `w + 3`
      characters per display column, each the padded name. */
  lemma HeaderLineLayout(w: nat, displayCols: seq<string>)
    requires forall i :: 0 <= i < |displayCols| ==> |displayCols[i]| <= w
    ensures var header := HeaderLine(w, displayCols);
            && Shaped(header, |displayCols|, w) && header[0] == '|'
            && CellsAt(header, HeaderCells(w, displayCols), w + 3)
  {
    LineShape('|', HeaderCells(w, displayCols), w + 3);
    LineCells('|', HeaderCells(w, displayCols), w + 3);
  }

  function Range(k: nat): (r: seq<int>)
    ensures |r| == k
    ensures forall i :: i in r <==> 0 <= i < k
  {
    var r := seq(k, i => i);
    forall i
      ensures i in r <==> 0 <= i < k
    {
      if 0 <= i < k {
        assert r[i] == i;
      }
    }
    r
  }

  /** A row's top border is `tableSplitLine` with the merged columns as the
      skipped indices. */
  lemma TopLineIsSplitLine(fill: char, w: nat, k: nat, n: nat)
    requires k <= n
    ensures TopLine(fill, w, k, n) == TableSplitLine(fill, n, w, Range(k))
  {
    assert TopCells(fill, w, k, n) == SplitCells(fill, n, w, Range(k));
  }

  lemma AppendAssoc(a: string, b: string, c: string)
    ensures (a + b) + c == a + (b + c)
  {
  }

  /** One step of the cursor: with the cursor at i while every column so
      far merged, and at i - 1 once one started new, column i starts new
      exactly when it lies at or beyond the equal prefix. */
  lemma CursorStep(last: seq<string>, cur: seq<string>, i: nat, changedColIndex: int)
    requires |last| == |cur| && i < |cur|
    requires changedColIndex == if i <= MergeCount(last, cur) then i else i - 1
    ensures (last[i] != cur[i] || changedColIndex < i) <==> MergeCount(last, cur) <= i
  {
  }

  /** Cell i of a row whose first `k` columns merge. */
  lemma CellAt(fill: char, w: nat, k: nat, row: seq<string>, i: nat)
    requires i < |row|
    ensures TopCells(fill, w, k, |row|)[i] == TopCell(fill, w, i < k)
    ensures ValueCells(w, k, row)[i] == ValueCell(w, i < k, row[i])
  {
  }

  /** Column i painted as the loop body does it: with the columns before i
      painted, their stored values replaced by the current ones, and the
      cursor at i while every column so far merged (at i - 1 once one
      started new), the same holds before column i + 1. The primed values
      are the state after the body. */
  lemma PaintStep(fill: char, w: nat, lastRow: seq<string>, row: seq<string>, i: nat,
                  changedColIndex: int, next: seq<string>, topCells: seq<string>, valueCells: seq<string>,
                  merged: bool, j: nat, changedColIndex': int, next': seq<string>, topCells': seq<string>, valueCells': seq<string>)
    requires |lastRow| == |row| && i < |row| && j == i + 1
    requires next == row[..i] + lastRow[i..]
    requires changedColIndex == (if i <= MergeCount(lastRow, row) then i else i - 1)
    requires topCells == TopCells(fill, w, MergeCount(lastRow, row), |row|)[..i]
    requires valueCells == ValueCells(w, MergeCount(lastRow, row), row)[..i]
    requires merged == !(next[i] != row[i] || changedColIndex < i)
    requires changedColIndex' == if merged then changedColIndex + 1 else i
    requires next' == if merged then next else next[i := row[i]]
    requires topCells' == topCells + [TopCell(fill, w, merged)]
    requires valueCells' == valueCells + [ValueCell(w, merged, row[i])]
    ensures next' == row[..j] + lastRow[j..]
    ensures changedColIndex' == (if j <= MergeCount(lastRow, row) then j else j - 1)
    ensures topCells' == TopCells(fill, w, MergeCount(lastRow, row), |row|)[..j]
    ensures valueCells' == ValueCells(w, MergeCount(lastRow, row), row)[..j]
  {
    var k := MergeCount(lastRow, row);
    assert next[i] == lastRow[i];
    CursorStep(lastRow, row, i, changedColIndex);
    CellAt(fill, w, k, row, i);
    PrefixSnoc(TopCells(fill, w, k, |row|), i);
    PrefixSnoc(ValueCells(w, k, row), i);
    SpliceStep(row, lastRow, i);
  }

  /** One iteration of the row loop: the `changedColIndex` cursor walks the
      display columns, a column merging while the cursor has kept pace with
      it and its value equals the stored one; the stored values of the
      columns that start new are replaced. */
  method PaintRow(fill: char, w: nat, lastRow: seq<string>, row: seq<string>)
    returns (topLine: string, valueLine: string, next: seq<string>)
    requires |lastRow| == |row|
    ensures next == row
    ensures topLine == TopLine(fill, w, MergeCount(lastRow, row), |row|)
    ensures valueLine == ValueLine(w, MergeCount(lastRow, row), row)
  {
    var topCells: seq<string> := [];
    var valueCells: seq<string> := [];
    next := lastRow;
    var changedColIndex := 0;
    var i := 0;
    assert row[..0] + lastRow[0..] == lastRow;
    while i < |row|
      invariant i <= |row|
      invariant next == row[..i] + lastRow[i..]
      invariant changedColIndex == (if i <= MergeCount(lastRow, row) then i else i - 1)
      invariant topCells == TopCells(fill, w, MergeCount(lastRow, row), |row|)[..i]
      invariant valueCells == ValueCells(w, MergeCount(lastRow, row), row)[..i]
    {
      ghost var (col, cursor, stored, tops, values) := (i, changedColIndex, next, topCells, valueCells);
      var merged := !(next[i] != row[i] || changedColIndex < i);
      if merged {
        changedColIndex := changedColIndex + 1;
      } else {
        changedColIndex := i;
        next := next[i := row[i]];
      }
      topCells := topCells + [TopCell(fill, w, merged)];
      valueCells := valueCells + [ValueCell(w, merged, row[i])];
      i := i + 1;
      PaintStep(fill, w, lastRow, row, col, cursor, stored, tops, values,
                merged, i, changedColIndex, next, topCells, valueCells);
    }
    PaintDone(fill, w, lastRow, row, changedColIndex, next, topCells, valueCells);
    topLine := Line('+', topCells);
    valueLine := Line('|', valueCells);
  }

  /** After the last column the whole row is painted. */
  lemma PaintDone(fill: char, w: nat, lastRow: seq<string>, row: seq<string>,
                  changedColIndex: int, next: seq<string>, topCells: seq<string>, valueCells: seq<string>)
    requires |lastRow| == |row|
    requires next == row[..|row|] + lastRow[|row|..]
    requires changedColIndex == (if |row| <= MergeCount(lastRow, row) then |row| else |row| - 1)
    requires topCells == TopCells(fill, w, MergeCount(lastRow, row), |row|)[..|row|]
    requires valueCells == ValueCells(w, MergeCount(lastRow, row), row)[..|row|]
    ensures next == row
    ensures topCells == TopCells(fill, w, MergeCount(lastRow, row), |row|)
    ensures valueCells == ValueCells(w, MergeCount(lastRow, row), row)
  {
  }

  /** All strings "": `lastRow` before the first body row. */
  function Blank(n: nat): (r: seq<string>)
    ensures |r| == n && forall i :: 0 <= i < n ==> r[i] == ""
  {
    seq(n, _ => "")
  }

  /** Every row holds `n` values. */
  ghost predicate Rect(rows: seq<seq<string>>, n: nat)
  {
    forall k :: 0 <= k < |rows| ==> |rows[k]| == n
  }

  /** `lastRow` once `k` body rows are painted. */
  function LastRow(rows: seq<seq<string>>, n: nat, k: nat): (r: seq<string>)
    requires Rect(rows, n) && k <= |rows|
    ensures |r| == n
  {
    if k == 0 then Blank(n) else rows[k - 1]
  }

  /** `=` under the header, on the first body row; `-` on the others. */
  function Fill(k: nat): char
  {
    if k == 0 then '=' else '-'
  }

  /** How many leading columns of body row k merge. */
  function RowMerge(rows: seq<seq<string>>, n: nat, k: nat): (m: nat)
    requires Rect(rows, n) && k < |rows|
    ensures m <= n
  {
    MergeCount(LastRow(rows, n, k), rows[k])
  }

  function RowTopCells(w: nat, n: nat, rows: seq<seq<string>>, k: nat): (cells: seq<string>)
    requires Rect(rows, n) && k < |rows|
    ensures |cells| == n
  {
    TopCells(Fill(k), w, RowMerge(rows, n, k), n)
  }

  function RowValueCells(w: nat, n: nat, rows: seq<seq<string>>, k: nat): (cells: seq<string>)
    requires Rect(rows, n) && k < |rows|
    ensures |cells| == n
  {
    ValueCells(w, RowMerge(rows, n, k), rows[k])
  }

  /** The two lines of body row k: its top border and its values. */
  function RowLines(w: nat, n: nat, rows: seq<seq<string>>, k: nat): (pair: seq<string>)
    requires Rect(rows, n) && k < |rows|
    ensures |pair| == 2
  {
    [TopLine(Fill(k), w, RowMerge(rows, n, k), n), ValueLine(w, RowMerge(rows, n, k), rows[k])]
  }

  function RowPairs(w: nat, n: nat, rows: seq<seq<string>>): (p: seq<seq<string>>)
    requires Rect(rows, n)
    ensures |p| == |rows|
    ensures forall k :: 0 <= k < |rows| ==> p[k] == RowLines(w, n, rows, k)
  {
    seq(|rows|, k requires 0 <= k < |rows| => RowLines(w, n, rows, k))
  }

  /** The body lines: for each row k, its top border (line 2k) and its
      values (line 2k + 1). */
  function BodyLines(w: nat, n: nat, rows: seq<seq<string>>): (lines: seq<string>)
    requires Rect(rows, n)
    ensures |lines| == 2 * |rows|
  {
    FlattenPairs(RowPairs(w, n, rows));
    Flatten(RowPairs(w, n, rows))
  }

  lemma BodyLinesAt(w: nat, n: nat, rows: seq<seq<string>>, k: nat)
    requires Rect(rows, n) && k < |rows|
    ensures BodyLines(w, n, rows)[2 * k] == TopLine(Fill(k), w, RowMerge(rows, n, k), n)
    ensures BodyLines(w, n, rows)[2 * k + 1] == ValueLine(w, RowMerge(rows, n, k), rows[k])
  {
    FlattenPairs(RowPairs(w, n, rows));
  }

  /** With a width of at least 1 every value line of the body is the line
      the source writes. */
  lemma BodyValueLineAsWritten(w: nat, n: nat, rows: seq<seq<string>>, k: nat)
    requires Rect(rows, n) && k < |rows| && w >= 1
    ensures BodyLines(w, n, rows)[2 * k + 1] == ValueLineAsWritten(w, RowMerge(rows, n, k), rows[k])
  {
    BodyLinesAt(w, n, rows, k);
    ValueLineAsWrittenAgrees(w, RowMerge(rows, n, k), rows[k]);
  }

  /** Appending the two lines of row `index` to the text of the rows
      before it. */
  lemma BodyStep(w: nat, n: nat, rows: seq<seq<string>>, index: nat, body: string, topLine: string, valueLine: string)
    requires Rect(rows, n) && index < |rows|
    requires body == Concat(Flatten(RowPairs(w, n, rows)[..index]))
    requires topLine == TopLine(Fill(index), w, RowMerge(rows, n, index), n)
    requires valueLine == ValueLine(w, RowMerge(rows, n, index), rows[index])
    ensures body + topLine + valueLine == Concat(Flatten(RowPairs(w, n, rows)[..index + 1]))
  {
    var pairs := RowPairs(w, n, rows);
    var prefix := Flatten(pairs[..index]);
    FlattenSnoc(pairs, index);
    assert pairs[index] == [topLine, valueLine];
    ConcatAppend(prefix, [topLine, valueLine]);
    assert Concat([topLine, valueLine]) == topLine + Concat([valueLine]);
    assert Concat([valueLine]) == valueLine + Concat([]);
    AppendAssoc(body, topLine, valueLine);
  }

  /** The row loop: `lastRow` starts all "", each row is painted against
      it, and after a row it holds that row's values. */
  method PaintBody(w: nat, n: nat, rows: seq<seq<string>>) returns (body: string, lastRow: seq<string>)
    requires Rect(rows, n)
    ensures body == Concat(BodyLines(w, n, rows))
    ensures lastRow == LastRow(rows, n, |rows|)
  {
    body := "";
    lastRow := Blank(n);
    var index := 0;
    while index < |rows|
      invariant 0 <= index <= |rows|
      invariant lastRow == LastRow(rows, n, index)
      invariant body == Concat(Flatten(RowPairs(w, n, rows)[..index]))
    {
      var fillChar := '-';
      if index == 0 {
        fillChar := '=';
      }
      assert fillChar == Fill(index) && |rows[index]| == n;
      ghost var merged := MergeCount(lastRow, rows[index]);
      assert merged == RowMerge(rows, n, index);
      var topLine, valueLine;
      topLine, valueLine, lastRow := PaintRow(fillChar, w, lastRow, rows[index]);
      BodyStep(w, n, rows, index, body, topLine, valueLine);
      body := body + topLine + valueLine;
      index := index + 1;
    }
    assert RowPairs(w, n, rows)[..index] == RowPairs(w, n, rows);
  }

  /** The merge rule on the output: the top segment of column i in body row
      k is blank exactly when column i and every column to its left equal
      the previous row (all "" for the first row); otherwise it is a border
      of `=` (first row) or `-` (later rows) and the value is drawn. */
  lemma MergeRule(w: nat, n: nat, rows: seq<seq<string>>, k: nat, i: nat)
    requires Rect(rows, n) && k < |rows| && i < n
    ensures (RowTopCells(w, n, rows, k)[i] == SplitCell(' ', w))
              <==> forall j :: 0 <= j <= i ==> LastRow(rows, n, k)[j] == rows[k][j]
    ensures RowTopCells(w, n, rows, k)[i] == SplitCell(' ', w) ==> RowValueCells(w, n, rows, k)[i] == BlankCell(w)
    ensures RowTopCells(w, n, rows, k)[i] != SplitCell(' ', w) ==>
              && RowTopCells(w, n, rows, k)[i] == SplitCell(if k == 0 then '=' else '-', w)
              && RowValueCells(w, n, rows, k)[i] == ColFormat(w, rows[k][i])
  {
    MergeIsEqualPrefix(LastRow(rows, n, k), rows[k], i);
    assert SplitCell(Fill(k), w)[0] != SplitCell(' ', w)[0];
  }

  /** The cascade: once a column starts new, every column to its right
      starts new as well, even when its own value is unchanged. */
  lemma Cascade(w: nat, n: nat, rows: seq<seq<string>>, k: nat, i: nat, j: nat)
    requires Rect(rows, n) && k < |rows| && i <= j < n
    requires RowTopCells(w, n, rows, k)[i] != SplitCell(' ', w)
    ensures RowTopCells(w, n, rows, k)[j] == SplitCell(Fill(k), w)
    ensures RowValueCells(w, n, rows, k)[j] == ColFormat(w, rows[k][j])
  {
  }

  /** When the first value of the first row is not "", no cell of that row
      merges and its top border is the full `=` rule. */
  lemma FirstRowRule(w: nat, n: nat, rows: seq<seq<string>>)
    requires Rect(rows, n) && |rows| > 0
    requires n > 0 ==> rows[0][0] != ""
    ensures BodyLines(w, n, rows)[0] == TableSplitLine('=', n, w, [])
  {
    BodyLinesAt(w, n, rows, 0);
    assert RowMerge(rows, n, 0) == 0;
    assert RowTopCells(w, n, rows, 0) == SplitCells('=', n, w, []);
  }

  /** A row whose every column merges: a blank top border and blank values. */
  lemma FullMerge(fill: char, w: nat, cur: seq<string>)
    ensures TopLine(fill, w, |cur|, |cur|) == TableSplitLine(' ', |cur|, w, [])
    ensures ValueLine(w, |cur|, cur) == Line('|', seq(|cur|, _ => BlankCell(w)))
  {
    assert TopCells(fill, w, |cur|, |cur|) == SplitCells(' ', |cur|, w, []);
    assert ValueCells(w, |cur|, cur) == seq(|cur|, _ => BlankCell(w));
  }

  /** Two consecutive equal rows: the second one merges in every column,
      group column or not, so its top border is blank throughout. */
  lemma RepeatedRowMerges(w: nat, n: nat, rows: seq<seq<string>>, k: nat)
    requires Rect(rows, n) && 0 < k < |rows| && rows[k - 1] == rows[k]
    ensures BodyLines(w, n, rows)[2 * k] == TableSplitLine(' ', n, w, [])
    ensures BodyLines(w, n, rows)[2 * k + 1] == Line('|', seq(n, _ => BlankCell(w)))
  {
    BodyLinesAt(w, n, rows, k);
    assert RowMerge(rows, n, k) == n;
    FullMerge(Fill(k), w, rows[k]);
  }

  /** The body of the grouped example table (grouped by age, then the
      name): the second and later rows of age 30 merge their age cell, and
      no other cell merges. */
  lemma AgeGroupMerges()
    ensures var rows := [["20", "John"], ["30", "Jane"], ["30", "Jack"], ["30", "Jill"], ["40", "Joe"]];
            && Rect(rows, 2)
            && RowMerge(rows, 2, 0) == 0 && RowMerge(rows, 2, 1) == 0
            && RowMerge(rows, 2, 2) == 1 && RowMerge(rows, 2, 3) == 1
            && RowMerge(rows, 2, 4) == 0
  {
  }

  /** No value in `rows` is longer than `w`. */
  ghost predicate Fits(rows: seq<seq<string>>, w: nat)
  {
    forall k, i :: 0 <= k < |rows| && 0 <= i < |rows[k]| ==> |rows[k][i]| <= w
  }

  /** Both lines of a body row are `LineWidth(n, w)` characters long and end
      in a newline when the row's values fit the width. */
  lemma RowLinesFit(w: nat, n: nat, rows: seq<seq<string>>, k: nat)
    requires Rect(rows, n) && Fits(rows, w) && k < |rows|
    ensures Shaped(TopLine(Fill(k), w, RowMerge(rows, n, k), n), n, w)
    ensures Shaped(ValueLine(w, RowMerge(rows, n, k), rows[k]), n, w)
  {
    var tops := RowTopCells(w, n, rows, k);
    var values := RowValueCells(w, n, rows, k);
    forall i | 0 <= i < n
      ensures |tops[i]| == w + 3 && |values[i]| == w + 3
    {
      var m := RowMerge(rows, n, k);
      assert |rows[k][i]| <= w;
      assert values[i] == if i < m then BlankCell(w) else ColFormat(w, rows[k][i]);
      assert |values[i]| == w + 3;
      assert tops[i] == SplitCell(if i < m then ' ' else Fill(k), w);
    }
    LineShape('+', tops, w + 3);
    LineShape('|', values, w + 3);
  }

  /** Every line of `lines` is `Shaped`. */
  ghost predicate AllShaped(lines: seq<string>, n: nat, w: nat)
  {
    forall j :: 0 <= j < |lines| ==> Shaped(lines[j], n, w)
  }

  lemma AllShapedAppend(a: seq<string>, b: seq<string>, n: nat, w: nat)
    requires AllShaped(a, n, w) && AllShaped(b, n, w)
    ensures AllShaped(a + b, n, w)
  {
  }

  /** Groups of shaped lines flatten to shaped lines. */
  lemma {:induction false} FlattenShaped(p: seq<seq<string>>, n: nat, w: nat)
    requires forall k :: 0 <= k < |p| ==> AllShaped(p[k], n, w)
    ensures AllShaped(Flatten(p), n, w)
  {
    if |p| > 0 {
      FlattenShaped(p[..|p| - 1], n, w);
      AllShapedAppend(Flatten(p[..|p| - 1]), p[|p| - 1], n, w);
    }
  }

  /** Every body line has the width of the table's border lines. */
  lemma BodyFits(w: nat, n: nat, rows: seq<seq<string>>)
    requires Rect(rows, n) && Fits(rows, w)
    ensures AllShaped(BodyLines(w, n, rows), n, w)
  {
    var pairs := RowPairs(w, n, rows);
    forall k | 0 <= k < |pairs|
      ensures AllShaped(pairs[k], n, w)
    {
      RowLinesFit(w, n, rows, k);
    }
    FlattenShaped(pairs, n, w);
  }

  /** The whole grid: the `-` rule drawn for `nCols` columns, the header
      over the display columns, the body lines, the `-` rule again. */
  function GridLines(nCols: nat, w: nat, displayCols: seq<string>, rows: seq<seq<string>>): (lines: seq<string>)
    requires Rect(rows, |displayCols|)
    ensures |lines| == 3 + 2 * |rows|
  {
    var rule := TableSplitLine('-', nCols, w, []);
    [rule, HeaderLine(w, displayCols)] + BodyLines(w, |displayCols|, rows) + [rule]
  }

  /** The shape of a rendered grid: every line as long as the border rule
      and ending in a newline, the `-` rule first and last, the header
      second with one padded name per display column. */
  ghost predicate GridShaped(lines: seq<string>, nCols: nat, w: nat, displayCols: seq<string>)
  {
    && |lines| >= 3
    && AllShaped(lines, nCols, w)
    && lines[0] == TableSplitLine('-', nCols, w, [])
    && lines[|lines| - 1] == TableSplitLine('-', nCols, w, [])
    && lines[1] == HeaderLine(w, displayCols)
    && CellsAt(lines[1], HeaderCells(w, displayCols), w + 3)
  }

  /** The grid is the rules around the header and the body lines. */
  lemma GridParts(nCols: nat, w: nat, displayCols: seq<string>, rows: seq<seq<string>>)
    requires Rect(rows, |displayCols|)
    ensures GridLines(nCols, w, displayCols, rows)
              == [TableSplitLine('-', nCols, w, []), HeaderLine(w, displayCols)]
                 + BodyLines(w, |displayCols|, rows) + [TableSplitLine('-', nCols, w, [])]
  {
  }

  /** What the grid needs of its inputs: as many display columns as the
      rules are drawn for, one value per display column in every row, and
      every name and value within the width. */
  ghost predicate Drawable(nCols: nat, w: nat, displayCols: seq<string>, rows: seq<seq<string>>)
  {
    && |displayCols| == nCols && Rect(rows, nCols) && Fits(rows, w)
    && forall i :: 0 <= i < |displayCols| ==> |displayCols[i]| <= w
  }

  /** Every line of the grid is shaped when the names and values fit. */
  lemma GridLinesShaped(nCols: nat, w: nat, displayCols: seq<string>, rows: seq<seq<string>>)
    requires Drawable(nCols, w, displayCols, rows)
    ensures AllShaped(GridLines(nCols, w, displayCols, rows), nCols, w)
  {
    var rule := TableSplitLine('-', nCols, w, []);
    var header := HeaderLine(w, displayCols);
    var body := BodyLines(w, nCols, rows);
    GridParts(nCols, w, displayCols, rows);
    SplitLineLayout('-', nCols, w, []);
    HeaderLineLayout(w, displayCols);
    BodyFits(w, nCols, rows);
    assert AllShaped([rule, header], nCols, w);
    AllShapedAppend([rule, header], body, nCols, w);
    assert AllShaped([rule], nCols, w);
    AllShapedAppend([rule, header] + body, [rule], nCols, w);
  }

  /** When there are as many display columns as columns and every name and
      value fits the width, the grid has that shape. */
  lemma GridShape(nCols: nat, w: nat, displayCols: seq<string>, rows: seq<seq<string>>)
    requires Drawable(nCols, w, displayCols, rows)
    ensures GridShaped(GridLines(nCols, w, displayCols, rows), nCols, w, displayCols)
  {
    GridParts(nCols, w, displayCols, rows);
    HeaderLineLayout(w, displayCols);
    GridLinesShaped(nCols, w, displayCols, rows);
  }

  /** Line 3 + 2k of the grid is value line k of the body; with a width of
      at least 1 it is the line the source writes. */
  lemma GridValueLineAsWritten(nCols: nat, w: nat, displayCols: seq<string>, rows: seq<seq<string>>, k: nat)
    requires Rect(rows, |displayCols|) && k < |rows| && w >= 1
    ensures GridLines(nCols, w, displayCols, rows)[3 + 2 * k]
              == ValueLineAsWritten(w, RowMerge(rows, |displayCols|, k), rows[k])
  {
    var rule := TableSplitLine('-', nCols, w, []);
    GridParts(nCols, w, displayCols, rows);
    MiddleAt(rule, HeaderLine(w, displayCols), BodyLines(w, |displayCols|, rows), rule, 2 * k + 1);
    BodyValueLineAsWritten(w, |displayCols|, rows, k);
  }

  /** The text of the grid is `|lines|` times the line length. */
  lemma GridLength(nCols: nat, w: nat, displayCols: seq<string>, rows: seq<seq<string>>)
    requires Drawable(nCols, w, displayCols, rows)
    ensures var lines := GridLines(nCols, w, displayCols, rows);
            |Concat(lines)| == |lines| * LineWidth(nCols, w)
  {
    var lines := GridLines(nCols, w, displayCols, rows);
    GridLinesShaped(nCols, w, displayCols, rows);
    ConcatLength(lines, LineWidth(nCols, w));
  }
}
