# rst-table: a Dafny model of the grid-table renderer

`rst-table` renders a list of records as a reStructuredText grid table. A
`Table` holds the records (`Rows`), the column names in the order they were
added (`Cols`) and one render function per column (`ColRenders`) that turns a
record into the text of that cell. `Table.GenerateRstTable(groupBy)`:

1. sorts the rows with a comparator over the group columns;
2. renders every cell and takes one width, `maxColLen`, for all columns: the
   longest column name or rendered value;
3. puts the group columns first, then the other columns in insertion order
   (`displayCols`);
4. writes a `-` border rule, the header line, two lines per row (a top border
   and a value line), and the closing `-` rule.

In the body, a cell merges with the cell above it when it and every cell to
its left hold the value stored for that column from the previous row. A
merged cell gets a blank top border and a blank value. Once a cell starts
new, every cell to its right starts new as well: the `changedColIndex`
cursor does this. The first row's top border is drawn with `=`, the others
with `-`.

The model has six modules:

- `Strings`: `strings.Repeat`, `%-Ns` padding, concatenation, and Go's `<` on
  strings.
- `Tables`: the `Table` datatype, `NewTable`, `AddRow`, `AddCol`.
- `Ordering`: the sort comparator and the sort.
- `Layout`: the width and the display columns.
- `Grid`: cells, `tableSplitLine`, the merge cursor, the row and body loops.
- `Render`: `GenerateRstTable` as a whole.

Records are a type parameter `R`, and render functions are Dafny functions
`(R, string) -> string`. Strings are `seq<char>`, one character per byte, so
the model covers ASCII text.

Four of the source's loops are modelled as methods that follow its code:

- `Layout.ComputeWidth`
- `Grid.PaintRow`
- `Grid.PaintBody`
- `Render.Generate`

Each method is proved equal to a functional definition, and the properties
are stated about that definition. There is one deliberate departure: a merged
value cell is written as the blank cell `Grid.BlankCell` rather than as `" "`
put through the value format. The two agree whenever the width is at least 1
(see "## Findings").

The model follows the code on these points, which are easy to misread:

- Merging is not limited to group columns. With no group columns, two
  consecutive rows that agree in their leading columns still merge those
  columns (`Grid.RepeatedRowMerges`).
- The first row is compared against a stored row of empty strings. A first
  row whose first value is "" therefore merges that cell, and its top border
  is not a full `=` rule (`Grid.MergeRule` with `k == 0`, `Grid.FirstRowRule`).
- The `DefaultColRender` field (table.go:18) is only set by `NewTable`.
  `GenerateRstTable` always calls the function registered in `ColRenders`
  and never reads that field, so a column without a registered function is
  never given the default.
- A group name that is not a column is still displayed, but its cells are
  empty: the painter reads values from each row's map of rendered values,
  which holds the table's columns only (`Render.Shown`).

## Model

| member | source | states |
|---|---|---|
| `Tables.NewTable` | table.go:34-41 | A new table has no rows, no columns and no render functions, and is consistent: a render is registered for exactly the listed columns. |
| `Tables.AddRow` | table.go:30-32 | The record is appended after the existing rows. Columns and renders are unchanged, and consistency is kept. |
| `Tables.AddCol` | table.go:43-46 | The name is appended to the columns and its render is registered, replacing an earlier one of the same name. Every other render is kept, and consistency is kept. |
| `Ordering.GroupLess` | table.go:51-58 | The comparator holds exactly when some group column renders the first row smaller in Go's string order. With no group columns it never holds. |
| `Ordering.GroupLessBothWays` | table.go:51-58 | For any render and any two rows whose values under the first group column are ordered one way and under the second the other way, each row compares less than the other. The test is existential, not lexicographic, so for such rows the comparator over those two group columns is not a strict weak order. |
| `Ordering.SingleGroupIsStrictWeakOrder` | table.go:51-58 | With one group column the comparator is irreflexive and transitive, and incomparability is transitive: it is a strict weak order. |
| `Ordering.InsertLeftPermutes` | table.go:51 | Inserting a row into a sorted prefix loses no row and adds exactly that one. |
| `Ordering.InsertLeftSorted` | table.go:51 | Under a strict weak order, inserting into a sorted sequence gives a sorted sequence. |
| `Ordering.SortRowsPermutes` | table.go:51 | Sorting gives a permutation of the rows, every row kept as often as it occurs. |
| `Ordering.SortRowsSorted` | table.go:51-58 | Under a strict weak order the sorted rows are in order: no later row is less than an earlier one. |
| `Ordering.SortBySingleGroup` | table.go:51-58 | With one group column the sorted rows are a permutation of the input, in ascending Go string order of that column. |
| `Ordering.SortRowsKeepsOrder` | table.go:51-58 | When the comparator never holds, the sort leaves the rows in their input order. |
| `Ordering.NoGroupKeepsOrder` | table.go:51-58 | With no group columns the comparator never holds, so the rows keep the order they were added in. |
| `Strings.StrLessIsLexicographic` | table.go:53 | Go's `<` on strings holds exactly when, after a common prefix, `a` ends first or has the smaller byte. |
| `Strings.StrLessTransitive` | table.go:53 | Go's string order is transitive. |
| `Strings.StrLessTotal` | table.go:53 | Two different strings are ordered one way or the other. |
| `Layout.Width` | table.go:61-77 | The width bounds every column name and every rendered value. It is attained by one of them, or is 0. |
| `Layout.WidthUnique` | table.go:61-77 | Any bound that is attained equals the width, so the width is the maximum. |
| `Layout.ComputeWidth` | table.go:61-77 | The two loops raising `maxColLen` compute exactly the greatest name or value length. |
| `Layout.DisplayCols` | table.go:80-95 | The display columns start with the group columns in the given order. A name is displayed exactly when it is a group column or a column. |
| `Layout.RemainingMembers` | table.go:84-95 | The columns kept after the group columns are exactly the columns that are not group columns. |
| `Layout.RemainingAppend` | table.go:84-95 | The kept columns keep their insertion order: filtering distributes over concatenation. |
| `Layout.DisplayColsPermutation` | table.go:80-95 | For distinct group columns drawn from distinct columns, the display columns are a permutation of the columns, with no duplicates. |
| `Grid.ColFormatChars` | table.go:166-168 | A value cell is a space, the value, spaces up to the width, a space and a closing bar. |
| `Grid.SplitCellChars` | table.go:169-171 | A border segment is `w + 2` fill characters followed by `+`. |
| `Grid.TableSplitLine` | table.go:143-164 | A split line is empty exactly when there are more skipped indices than columns. |
| `Grid.SplitLineLayout` | table.go:143-164 | Otherwise it starts with `+`, is `nCols * (w + 3) + 2` characters long and ends in a newline. Its segment `i` is `w + 2` spaces when `i` is skipped, `w + 2` fill characters otherwise, then `+`. |
| `Grid.TopLineIsSplitLine` | table.go:120-127 | A row's top border is `tableSplitLine` with the merged columns as the skipped indices. |
| `Grid.HeaderLineLayout` | table.go:98-104 | When every name fits the width, the header line starts with a bar, is `LineWidth(n, w)` characters long for `n` display columns and ends in a newline. Its segment `i` is display column `i` padded to the width. |
| `Grid.MergeCount` | table.go:119-129 | The number of merged columns is the longest prefix on which the stored row and the current row agree. |
| `Grid.CursorStep` | table.go:118-129 | One step of the `changedColIndex` cursor: column `i` starts new exactly when it is at or beyond the equal prefix. |
| `Grid.PaintStep` | table.go:119-129 | One iteration of the column loop keeps the loop state. Painted cells are the merged or new cells, stored values are replaced up to `i`, and the cursor is where the prefix puts it. |
| `Grid.PaintRow` | table.go:110-133 | The column loop gives the top border and value line of the merge rule, and leaves the stored row equal to the current row. |
| `Grid.PaintBody` | table.go:106-134 | The row loop writes, for each row `k`, its top border then its values. These are compared against row `k - 1`, or against empty strings for the first row. |
| `Grid.BodyLinesAt` | table.go:109-134 | Body line `2k` is row `k`'s top border and line `2k + 1` its value line. |
| `Grid.MergeRule` | table.go:119-129 | Column `i` of row `k` has a blank top segment exactly when it and every column to its left equal the previous row. A blank top goes with a blank value. Otherwise the top is `=` (first row) or `-` and the value is drawn. |
| `Grid.Cascade` | table.go:120-121 | Once a column starts new, every column to its right starts new and shows its value. |
| `Grid.FirstRowRule` | table.go:110-113 | When the first value of the first row is not empty, its top border is the full `=` rule. |
| `Grid.RepeatedRowMerges` | table.go:119-129 | A row equal to the row before it merges in every column: a blank top border and blank values. |
| `Grid.AgeGroupMerges` | table_test.go:39-68 | In the age-grouped example only the second and third rows of age 30 merge, and only their age cell. |
| `Grid.BlankCell` | table.go:128 | The blank cell of a merged column is `w + 3` characters, as wide as every other cell. |
| `Grid.MergedCellAsWrittenAgrees` | table.go:128 | For a width of at least 1, the source's merged cell (`" "` put through the value format) is the blank cell. |
| `Grid.MergedCellAsWrittenMisaligned` | table.go:128 | At width 0 the source's merged cell has 4 characters, where every other cell has 3. |
| `Grid.ValueLineAsWrittenAgrees` | table.go:116-132 | For a width of at least 1, the value line the source writes, with `" "` formatted into every merged cell, is the model's value line. |
| `Grid.ValueLineAsWrittenTooLong` | table.go:116-132 | At width 0, with every value empty, the model's value line is as long as the rules, and the source's is one character longer for every merged column. |
| `Grid.BodyValueLineAsWritten` | table.go:109-134 | For a width of at least 1, value line `k` of the body is the line the source writes for row `k`. |
| `Grid.GridValueLineAsWritten` | table.go:98-139 | For a width of at least 1, line `3 + 2k` of the grid is the value line the source writes for row `k`. |
| `Grid.BodyFits` | table.go:109-134 | When every value fits the width, every body line is as long as the rule and ends in a newline. |
| `Grid.GridShape` | table.go:98-139 | For a drawable layout, every line is as long as the rule and ends in a newline. The `-` rule comes first and last and the header second. |
| `Grid.GridLength` | table.go:98-139 | For a drawable layout, the text is the number of lines times the line length. |
| `Render.Generate` | table.go:49-140 | The method grows a buffer in the source's order (rule, header, rows, rule) and produces exactly `GenerateRstTable`. It also gives back the rows in the order the sort leaves them in the caller's slice. |
| `Render.ValueLinesAsWritten` | table.go:49-140 | Whenever the table's width is at least 1, output line `3 + 2k` is the value line the source writes for row `k`, merged cells included. |
| `Render.EmptyColumnMisaligned` | table.go:128 | For one row and one column, with an empty name and an empty value, the width is 0 and the row merges. Every line of the model's output is 5 characters, and the source's value line has 6. |
| `Render.RenderLines` | table.go:98-139 | The output has three lines plus two per row. |
| `Render.SortedRows` | table.go:51-58 | The rows are rendered as a permutation of the table's rows, every row kept as often as it occurs. |
| `Render.SortedRowsSorted` | table.go:51-58 | When the comparator is a strict weak order, the rendered rows are in sorted order: no later row is less than an earlier one. |
| `Render.ValuesFit` | table.go:68-77 | Every displayed value fits the width: a column's values were measured, and any other display name shows "". |
| `Render.PlanFits` | table.go:61-106 | When the group columns are columns and there are as many display columns as columns, the layout is drawable: every name and value fits the width. |
| `Render.GroupHeadersFirst` | table.go:80-83 | The first header cells are the group columns, in the order given. |
| `Render.OutputShape` | table.go:49-140 | Under the same conditions, the output lines have the grid shape: equal length, a newline each, the `-` rule first and last, the header second. |
| `Render.OutputLength` | table.go:49-140 | The output length is the line count times the line length: `w + 3` characters per column of the table, plus the leading character and the newline. |
| `Render.SingleGroupSorted` | table.go:51-58 | With one group column, the first displayed column is in ascending Go string order down the table. |
| `Render.NoGroupLayout` | table.go:51-95 | With no group columns, the rows keep their insertion order and the columns are displayed in insertion order. |

## Left out

- `DefaultColRender`: it formats a map entry with `fmt`'s `%v`, which the model cannot express. A column's render is a parameter of the model.
- `GenerateRstTableWithCustomOrder`: called by table_test.go:167 but not defined in table.go, so it is not part of this model. `Ordering.SortRowsPermutes` and `Ordering.SortRowsSorted` hold for any comparator.
- Go's sort: `sort.Slice` is pattern-defeating quicksort, which is neither specified nor stable. The model sorts by straight insertion, which is what that sort does for up to 12 rows. For more than 12 rows, the source's order, tied rows included, may differ from the model's.
- The sort's comparator is a strict weak order for one group column (`Ordering.SingleGroupIsStrictWeakOrder`), and never holds for none (`Ordering.NoGroupKeepsOrder`). For two or more distinct group columns it is in general not one (`Ordering.GroupLessBothWays`). Go's sort then gives no ordering guarantee, and the model promises nothing beyond the permutation.
- Aliasing: the sort reorders the caller's row slice in place. `Render.Generate` gives those rows back, but the model's `Table` value is not changed, so a second render starts from the insertion order. The source's second render starts from the order the first one left. The second render in `TestTableWithThreeColGroup` (table_test.go:136-152) depends on this. Starting from insertion order, the model's sort gives John, Jane, Jack, Jill, Joe. The test expects Joe before Jack and Jill.
- Panics: the source calls a missing render function, and so panics, when the comparator reaches a group name with no registered render (it can once there are two or more rows; an earlier group column that orders the pair returns first), or when a column has none and there is a row. `Tables.Lookup` instead yields "" for a name without a render.
- Non-ASCII text: `len` counts bytes, and `%-Ns` pads to N runes. The two agree only on ASCII, which the model assumes.
- `Render.PlanFits`: proved only when every group column is a column and there are as many display columns as columns (`Layout.DisplayColsPermutation` gives the count for distinct group columns and distinct column names). Otherwise the rules have `len(Cols)` cells while the header and body have `len(displayCols)`, so the lines can differ in length, and a group name that is not a column can be wider than the width.
- `Render.OutputShape`: needs the same conditions as `Render.PlanFits`, for the same reason.
- `Render.OutputLength`: needs the same conditions as `Render.PlanFits`, for the same reason.
- `Grid.PaintRow`: writes the blank cell for a merged column, not `" "` put through the value format. The two differ only at width 0 (`Grid.ValueLineAsWrittenTooLong`).
- `Render.Generate`: uses `Grid.PaintRow`, so it differs from the source in the same way, and only at width 0 (`Render.ValueLinesAsWritten`, `Render.EmptyColumnMisaligned`).

## Findings

| source | as written | input that shows it | evidently intended | confidence | as-written member | corrected member |
|---|---|---|---|---|---|---|
| table.go:128 | The merged value cell is `fmt.Sprintf(colFormat(maxColLen), " ")`. At `maxColLen == 0` the format reads `%-0s`, where `0` is a flag and sets no width, so the cell is 4 characters. | One column named "" whose render returns "", and one row. The first row merges against the stored empty string, and its value line is one character longer than the rules. | A blank cell as wide as every other cell, `w + 3` characters (the value format applied to ""). | medium, not executed | `Grid.ValueLineAsWrittenTooLong` | `Grid.BlankCell` |

The rest of the model uses the corrected cell, `Grid.BlankCell`. For every
width of at least 1 it equals the source's cell (`Grid.MergedCellAsWrittenAgrees`),
and every value line of the output equals the one the source writes
(`Render.ValueLinesAsWritten`). `Render.EmptyColumnMisaligned` works the
input above through the whole renderer.
