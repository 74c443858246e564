/** The table description the renderer reads: the records, the column
    names in insertion order, and one render function per column name. */
module Tables {

  /** Turns a record and a column name into the text shown in that cell. */
  type ColRender<!R> = (R, string) -> string

  /** `rows` are the opaque records, `cols` the column names in the order
      they were added, `renders` the render function registered per name. */
  datatype Table<!R> = Table(rows: seq<R>, cols: seq<string>, renders: map<string, ColRender<R>>)

  /** The render functions are registered for exactly the listed column
      names, which `NewTable`, `AddCol` and `AddRow` maintain. */
  ghost predicate Valid<R>(t: Table<R>)
  {
    forall c :: c in t.renders <==> c in t.cols
  }

  function NewTable<R>(): (t: Table<R>)
    ensures Valid(t)
    ensures |t.rows| == 0 && |t.cols| == 0 && |t.renders| == 0
  {
    Table([], [], map[])
  }

  /** Appends one record; nothing is checked against the columns. */
  function AddRow<R>(t: Table<R>, row: R): (t': Table<R>)
    ensures Valid(t) ==> Valid(t')
    ensures t'.rows == t.rows + [row]
    ensures t'.cols == t.cols && t'.renders == t.renders
  {
    t.(rows := t.rows + [row])
  }

  /** Appends a column name and registers its render function, replacing any
      function registered earlier under the same name. */
  function AddCol<R>(t: Table<R>, col: string, render: ColRender<R>): (t': Table<R>)
    ensures Valid(t) ==> Valid(t')
    ensures t'.rows == t.rows && t'.cols == t.cols + [col]
    ensures col in t'.renders && t'.renders[col] == render
    ensures forall c :: c in t.renders && c != col ==> c in t'.renders && t'.renders[c] == t.renders[c]
    ensures t'.renders.Keys == t.renders.Keys + {col}
  {
    t.(cols := t.cols + [col], renders := t.renders[col := render])
  }

  /** The text of `col` for `row`: `t.ColRenders[col](row, col)` whenever a
      render is registered under `col`, whether or not it is a column. For a
      name with no render it is "", where the source calls a nil function
      and panics. */
  function Lookup<R>(t: Table<R>): ColRender<R>
  {
    (row: R, col: string) => if col in t.renders then t.renders[col](row, col) else ""
  }
}
