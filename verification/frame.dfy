/** The in-memory table the log cruncher works on: a header of unique column
    names, in file order, and rows of cells aligned with the header. A cell
    the CSV reader leaves empty is `Missing` (a NaN in the source). */
module Frame {
  import opened Seqs

  datatype Cell = Missing | Val(text: string)

  type Row = seq<Cell>

  datatype Table = Table(columns: seq<string>, rows: seq<Row>)

  /** Column names are unique and every row has one cell per column. */
  ghost predicate WellFormed(t: Table)
  {
    && Distinct(t.columns)
    && forall i :: 0 <= i < |t.rows| ==> |t.rows[i]| == |t.columns|
  }

  /** The cells of column position `j`, top to bottom. */
  function Column(t: Table, j: nat): (cells: seq<Cell>)
    requires forall i :: 0 <= i < |t.rows| ==> j < |t.rows[i]|
    ensures |cells| == |t.rows|
    ensures forall i :: 0 <= i < |t.rows| ==> cells[i] == t.rows[i][j]
  {
    seq(|t.rows|, i requires 0 <= i < |t.rows| => t.rows[i][j])
  }

  /** The cells of the column named `c`, top to bottom. */
  function ColumnOf(t: Table, c: string): (cells: seq<Cell>)
    requires WellFormed(t) && c in t.columns
    ensures |cells| == |t.rows|
  {
    Column(t, IndexOf(t.columns, c))
  }

  /** pandas' `DataFrame.empty`: the table has no rows or no columns. */
  predicate IsEmpty(t: Table)
  {
    |t.rows| == 0 || |t.columns| == 0
  }

  ghost predicate AllMissing(cells: seq<Cell>)
  {
    forall i :: 0 <= i < |cells| ==> cells[i] == Missing
  }

  /** The table restricted to the column positions `idx`. */
  function Project(t: Table, idx: seq<nat>): (u: Table)
    requires WellFormed(t)
    requires forall k :: 0 <= k < |idx| ==> idx[k] < |t.columns|
  {
    Table(Pick(t.columns, idx), seq(|t.rows|, i requires 0 <= i < |t.rows| => Pick(t.rows[i], idx)))
  }

  /** `u` is `t` with only the columns at the increasing positions `idx`
      kept: the surviving columns keep their relative order, and the rows,
      their order and the surviving cells are those of `t`. */
  ghost predicate KeepsColumns(t: Table, u: Table, idx: seq<nat>)
  {
    && StrictlyIncreasing(idx)
    && (forall k :: 0 <= k < |idx| ==> idx[k] < |t.columns|)
    && |u.columns| == |idx|
    && (forall k :: 0 <= k < |idx| ==> u.columns[k] == t.columns[idx[k]])
    && |u.rows| == |t.rows|
    && (forall i :: 0 <= i < |u.rows| ==> |u.rows[i]| == |idx|)
    && (forall i, k :: 0 <= i < |t.rows| && 0 <= k < |idx| ==>
          idx[k] < |t.rows[i]| && u.rows[i][k] == t.rows[i][idx[k]])
  }

  /** Projecting on the positions a mask selects keeps exactly the columns
      the mask marks, as a well-formed table. */
  lemma ProjectSelected(t: Table, keep: seq<bool>)
    requires WellFormed(t) && |keep| == |t.columns|
    ensures var u := Project(t, Selected(keep));
      && WellFormed(u)
      && KeepsColumns(t, u, Selected(keep))
      && forall j :: 0 <= j < |t.columns| ==> (t.columns[j] in u.columns <==> keep[j])
  {
    var idx := Selected(keep);
    PickDistinct(t.columns, idx);
    ProjectKeeps(t, idx);
    forall j | 0 <= j < |t.columns|
      ensures t.columns[j] in Project(t, idx).columns <==> keep[j]
    {
      PickSelectedMember(t.columns, keep, j);
    }
  }

  /** Projecting on increasing positions keeps those columns, in order. */
  lemma ProjectKeeps(t: Table, idx: seq<nat>)
    requires WellFormed(t) && StrictlyIncreasing(idx)
    requires forall k :: 0 <= k < |idx| ==> idx[k] < |t.columns|
    ensures KeepsColumns(t, Project(t, idx), idx)
  {
  }

  /** Keeping some rows keeps the same positions of every column. */
  lemma ColumnOfPickedRows(t: Table, idx: seq<nat>, j: nat)
    requires forall i :: 0 <= i < |t.rows| ==> j < |t.rows[i]|
    requires forall k :: 0 <= k < |idx| ==> idx[k] < |t.rows|
    ensures Column(Table(t.columns, Pick(t.rows, idx)), j) == Pick(Column(t, j), idx)
  {
  }

  /** A column that survives a projection holds the same cells as before. */
  lemma KeptColumnUnchanged(t: Table, u: Table, idx: seq<nat>, c: string)
    requires WellFormed(t) && WellFormed(u) && KeepsColumns(t, u, idx)
    requires c in u.columns
    ensures c in t.columns && ColumnOf(u, c) == ColumnOf(t, c)
  {
    var k := IndexOf(u.columns, c);
    var j := idx[k];
    DistinctIndex(t.columns, j);
    assert IndexOf(t.columns, c) == j;
  }

  /** Every column that survives a projection holds the same cells as
      before. */
  lemma KeptColumnsUnchanged(t: Table, u: Table)
    requires WellFormed(t) && WellFormed(u)
    requires exists idx :: KeepsColumns(t, u, idx)
    ensures forall c :: c in u.columns ==> c in t.columns && ColumnOf(u, c) == ColumnOf(t, c)
  {
    var idx :| KeepsColumns(t, u, idx);
    forall c | c in u.columns
      ensures c in t.columns && ColumnOf(u, c) == ColumnOf(t, c)
    {
      KeptColumnUnchanged(t, u, idx, c);
    }
  }

  /** A table is its own projection on every position. */
  lemma KeepsAllColumns(t: Table)
    requires WellFormed(t)
    ensures KeepsColumns(t, t, seq(|t.columns|, j => j))
  {
  }

  /** A projection of a projection is a projection of the original, on
      the composed positions. */
  lemma KeepsColumnsCompose(t: Table, u: Table, v: Table, outer: seq<nat>, inner: seq<nat>)
    requires KeepsColumns(t, u, outer) && KeepsColumns(u, v, inner)
    ensures forall k :: 0 <= k < |inner| ==> inner[k] < |outer|
    ensures KeepsColumns(t, v, Pick(outer, inner))
  {
    var idx := Pick(outer, inner);
    forall a, b | 0 <= a < b < |idx|
      ensures idx[a] < idx[b]
    {
      assert inner[a] < inner[b];
    }
  }

  /** Applying up to two projections, each possibly skipped, is one
      projection of the original. */
  lemma KeepsColumnsChain(t: Table, t1: Table, t2: Table)
    requires WellFormed(t) && WellFormed(t1)
    requires t1 == t || exists idx :: KeepsColumns(t, t1, idx)
    requires t2 == t1 || exists idx :: KeepsColumns(t1, t2, idx)
    ensures exists idx :: KeepsColumns(t, t2, idx)
  {
    var outer: seq<nat>, inner: seq<nat>;
    if t1 == t {
      outer := seq(|t.columns|, j => j);
      KeepsAllColumns(t);
    } else {
      outer :| KeepsColumns(t, t1, outer);
    }
    if t2 == t1 {
      inner := seq(|t1.columns|, j => j);
      KeepsAllColumns(t1);
    } else {
      inner :| KeepsColumns(t1, t2, inner);
    }
    KeepsColumnsCompose(t, t1, t2, outer, inner);
  }

  /** The projection on every position is the table itself. */
  lemma ProjectAll(t: Table, keep: seq<bool>)
    requires WellFormed(t) && |keep| == |t.columns|
    requires forall j :: 0 <= j < |keep| ==> keep[j]
    ensures Project(t, Selected(keep)) == t
  {
    SelectedAll(keep);
    var u := Project(t, Selected(keep));
    assert u.columns == t.columns;
    forall i | 0 <= i < |t.rows|
      ensures u.rows[i] == t.rows[i]
    {
    }
  }

  /** Column assignment `t[c] = values`: overwrites column `c` in place
      when it exists and appends it otherwise. */
  function SetColumn(t: Table, c: string, values: seq<Cell>): (u: Table)
    requires WellFormed(t) && |values| == |t.rows|
    ensures WellFormed(u)
    ensures u.columns == if c in t.columns then t.columns else t.columns + [c]
    ensures |u.rows| == |t.rows|
    ensures ColumnOf(u, c) == values
    ensures forall d :: d in t.columns && d != c ==> ColumnOf(u, d) == ColumnOf(t, d)
  {
    if c in t.columns then
      var m := IndexOf(t.columns, c);
      var u := Table(t.columns, seq(|t.rows|, i requires 0 <= i < |t.rows| => t.rows[i][m := values[i]]));
      OverwrittenColumns(t, u, c, values);
      u
    else
      var u := Table(t.columns + [c], seq(|t.rows|, i requires 0 <= i < |t.rows| => t.rows[i] + [values[i]]));
      AppendedColumns(t, u, c, values);
      u
  }

  /** The facts `SetColumn` promises when `c` is overwritten in place. */
  lemma OverwrittenColumns(t: Table, u: Table, c: string, values: seq<Cell>)
    requires WellFormed(t) && c in t.columns && |values| == |t.rows|
    requires u.columns == t.columns && |u.rows| == |t.rows|
    requires forall i :: 0 <= i < |t.rows| ==> u.rows[i] == t.rows[i][IndexOf(t.columns, c) := values[i]]
    ensures WellFormed(u)
    ensures ColumnOf(u, c) == values
    ensures forall d :: d in t.columns && d != c ==> ColumnOf(u, d) == ColumnOf(t, d)
  {
    forall d | d in t.columns && d != c
      ensures ColumnOf(u, d) == ColumnOf(t, d)
    {
      assert IndexOf(t.columns, d) != IndexOf(t.columns, c);
    }
  }

  /** The facts `SetColumn` promises when `c` is appended. */
  lemma AppendedColumns(t: Table, u: Table, c: string, values: seq<Cell>)
    requires WellFormed(t) && c !in t.columns && |values| == |t.rows|
    requires u.columns == t.columns + [c] && |u.rows| == |t.rows|
    requires forall i :: 0 <= i < |t.rows| ==> u.rows[i] == t.rows[i] + [values[i]]
    ensures WellFormed(u)
    ensures ColumnOf(u, c) == values
    ensures forall d :: d in t.columns && d != c ==> ColumnOf(u, d) == ColumnOf(t, d)
  {
    assert Distinct(u.columns);
    DistinctIndex(u.columns, |t.columns|);
    forall d | d in t.columns && d != c
      ensures ColumnOf(u, d) == ColumnOf(t, d)
    {
      DistinctIndex(u.columns, IndexOf(t.columns, d));
    }
  }
}
