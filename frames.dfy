/**
 * Data frames: a value view (`Table`) used by the pipeline's pure steps, and
 * a mutable `Frame` whose methods update columns in place, as
 * `_normalize_numeric` (src/run_market_ohlcv.py, lines 41-45) and the
 * fill loop of `main` (lines 103-105) do.
 */
module Frames {
  import opened Cells

  /** One row: the cell under each column label. */
  type Row = map<string, Cell>

  /** A data frame as a value: its column labels in order, and its rows in order. */
  datatype Table = Table(columns: seq<string>, rows: seq<Row>)

  predicate Distinct<T(==)>(s: seq<T>) {
    forall i, j :: 0 <= i < j < |s| ==> s[i] != s[j]
  }

  /** The row has a cell under exactly the given labels. */
  ghost predicate RowOf(r: Row, columns: seq<string>) {
    forall c :: c in r <==> c in columns
  }

  /** Labels are distinct and every row has a cell under each label and no other. */
  ghost predicate WellFormed(t: Table) {
    && Distinct(t.columns)
    && forall i :: 0 <= i < |t.rows| ==> RowOf(t.rows[i], t.columns)
  }

  /** A table is well formed when its labels are distinct and each of its rows has exactly them. */
  lemma WellFormedByMembers(columns: seq<string>, rows: seq<Row>)
    requires Distinct(columns) && forall x :: x in rows ==> RowOf(x, columns)
    ensures WellFormed(Table(columns, rows))
  {
    assert forall i :: 0 <= i < |rows| ==> rows[i] in rows;
  }

  /** `Series.fillna(0)` on one cell. */
  function FillZero(c: Cell): (r: Cell)
    ensures !r.Missing?
    ensures c.Missing? ==> r == Num(0.0)
    ensures !c.Missing? ==> r == c
  {
    if c.Missing? then Num(0.0) else c
  }

  /** Both per-cell updates the pipeline uses are idempotent. */
  ghost predicate Idempotent(f: Cell -> Cell) {
    forall c :: f(f(c)) == f(c)
  }

  lemma CellUpdatesIdempotent()
    ensures Idempotent(ToNum)
    ensures Idempotent(FillZero)
  {
    forall c: Cell ensures ToNum(ToNum(c)) == ToNum(c) {
      ToNumIdempotent(c);
    }
  }

  function UpdateCell(r: Row, c: string, f: Cell -> Cell): Row {
    if c in r then r[c := f(r[c])] else r
  }

  /** `df[c] = df[c].apply(f)` on the rows of a frame. */
  function UpdateColumn(rows: seq<Row>, c: string, f: Cell -> Cell): (out: seq<Row>)
    ensures |out| == |rows|
    ensures forall i :: 0 <= i < |rows| ==> out[i] == UpdateCell(rows[i], c, f)
  {
    seq(|rows|, i requires 0 <= i < |rows| => UpdateCell(rows[i], c, f))
  }

  /**
   * The loop `for c in cols: if c in df.columns: df[c] = df[c].apply(f)`,
   * as a value: the listed columns that are present are updated in list order.
   */
  function MapColumns(t: Table, cols: seq<string>, f: Cell -> Cell): (r: Table)
    ensures r.columns == t.columns && |r.rows| == |t.rows|
    ensures forall i :: 0 <= i < |t.rows| ==> r.rows[i].Keys == t.rows[i].Keys
    ensures forall i, c :: 0 <= i < |t.rows| && c in t.rows[i] && c !in cols ==> r.rows[i][c] == t.rows[i][c]
  {
    if cols == [] then t
    else
      var t' := MapColumns(t, cols[..|cols| - 1], f);
      var c := cols[|cols| - 1];
      assert forall d :: d !in cols ==> d !in cols[..|cols| - 1] && d != c;
      if c in t'.columns then Table(t'.columns, UpdateColumn(t'.rows, c, f)) else t'
  }

  /** `_normalize_numeric(df, cols)` as a value. */
  function Normalized(t: Table, cols: seq<string>): (r: Table)
    ensures r.columns == t.columns && |r.rows| == |t.rows|
    ensures forall i :: 0 <= i < |t.rows| ==> r.rows[i].Keys == t.rows[i].Keys
    ensures forall i, c :: 0 <= i < |t.rows| && c in t.rows[i] && c !in cols ==> r.rows[i][c] == t.rows[i][c]
  {
    MapColumns(t, cols, ToNum)
  }

  /** The fill loop of `main` as a value: each listed column present gets `fillna(0)`. */
  function Filled(t: Table, cols: seq<string>): (r: Table)
    ensures r.columns == t.columns && |r.rows| == |t.rows|
    ensures forall i :: 0 <= i < |t.rows| ==> r.rows[i].Keys == t.rows[i].Keys
    ensures forall i, c :: 0 <= i < |t.rows| && c in t.rows[i] && c !in cols ==> r.rows[i][c] == t.rows[i][c]
  {
    MapColumns(t, cols, FillZero)
  }

  /**
   * Updating the listed columns changes exactly the cells under listed labels
   * that the frame has, each to `f` of its old value, whatever the order or
   * repetition of the list; labels, row count and every other cell are unchanged.
   */
  lemma {:induction false} MapColumnsCells(t: Table, cols: seq<string>, f: Cell -> Cell)
    requires WellFormed(t) && Idempotent(f)
    ensures var r := MapColumns(t, cols, f);
      && WellFormed(r) && r.columns == t.columns && |r.rows| == |t.rows|
      && (forall i :: 0 <= i < |t.rows| ==> r.rows[i].Keys == t.rows[i].Keys)
      && forall i, c :: 0 <= i < |t.rows| && c in t.rows[i] ==>
           r.rows[i][c] == if c in cols then f(t.rows[i][c]) else t.rows[i][c]
  {
    if cols != [] {
      var front := cols[..|cols| - 1];
      var last := cols[|cols| - 1];
      MapColumnsCells(t, front, f);
      var t' := MapColumns(t, front, f);
      assert forall c :: c in cols <==> c in front || c == last;
      if last in t'.columns {
        var r := MapColumns(t, cols, f);
        forall i, c | 0 <= i < |t.rows| && c in t.rows[i]
          ensures r.rows[i][c] == if c in cols then f(t.rows[i][c]) else t.rows[i][c]
        {
          if c == last && c in front {
            assert f(f(t.rows[i][c])) == f(t.rows[i][c]);
          }
        }
      }
    }
  }

  /** `_normalize_numeric` changes only the listed columns that are present, each cell by `_to_num`. */
  lemma NormalizedCells(t: Table, cols: seq<string>)
    requires WellFormed(t)
    ensures var r := Normalized(t, cols);
      && WellFormed(r) && r.columns == t.columns && |r.rows| == |t.rows|
      && (forall i :: 0 <= i < |t.rows| ==> r.rows[i].Keys == t.rows[i].Keys)
      && forall i, c :: 0 <= i < |t.rows| && c in t.rows[i] ==>
           r.rows[i][c] == if c in cols then ToNum(t.rows[i][c]) else t.rows[i][c]
  {
    CellUpdatesIdempotent();
    MapColumnsCells(t, cols, ToNum);
  }

  /** Coercing other columns leaves column `c` as it was. */
  lemma NormalizedKeeps(t: Table, cols: seq<string>, c: string)
    requires WellFormed(t) && c in t.columns && c !in cols
    ensures WellFormed(Normalized(t, cols)) && Normalized(t, cols).columns == t.columns
    ensures |Normalized(t, cols).rows| == |t.rows|
    ensures forall i :: 0 <= i < |t.rows| ==> Normalized(t, cols).rows[i][c] == t.rows[i][c]
  {
    NormalizedCells(t, cols);
  }

  /** The fill loop leaves no missing cell in a listed column, and touches no other column. */
  lemma FilledCells(t: Table, cols: seq<string>)
    requires WellFormed(t)
    ensures var r := Filled(t, cols);
      && WellFormed(r) && r.columns == t.columns && |r.rows| == |t.rows|
      && (forall i :: 0 <= i < |t.rows| ==> r.rows[i].Keys == t.rows[i].Keys)
      && forall i, c :: 0 <= i < |t.rows| && c in t.rows[i] ==>
           r.rows[i][c] == if c in cols then FillZero(t.rows[i][c]) else t.rows[i][c]
  {
    CellUpdatesIdempotent();
    MapColumnsCells(t, cols, FillZero);
  }

  /** A data frame that is updated in place. */
  class Frame {
    var columns: seq<string>
    var rows: seq<Row>

    /** The frame's current contents. */
    function Value(): Table
      reads this
    {
      Table(columns, rows)
    }

    constructor (t: Table)
      ensures Value() == t
    {
      columns := t.columns;
      rows := t.rows;
    }

    /** `_normalize_numeric(df, cols)`: coerce, in place, each listed column the frame has. */
    method NormalizeNumeric(cols: seq<string>)
      modifies this
      ensures Value() == Normalized(old(Value()), cols)
    {
      for j := 0 to |cols|
        invariant Value() == MapColumns(old(Value()), cols[..j], ToNum)
      {
        assert cols[..j + 1][..j] == cols[..j];
        var c := cols[j];
        if c in columns {
          rows := UpdateColumn(rows, c, ToNum);
        }
      }
      assert cols[..|cols|] == cols;
    }

    /** `for c in cols: if c in out.columns: out[c] = out[c].fillna(0)`. */
    method FillZeros(cols: seq<string>)
      modifies this
      ensures Value() == Filled(old(Value()), cols)
    {
      for j := 0 to |cols|
        invariant Value() == MapColumns(old(Value()), cols[..j], FillZero)
      {
        assert cols[..j + 1][..j] == cols[..j];
        var c := cols[j];
        if c in columns {
          rows := UpdateColumn(rows, c, FillZero);
        }
      }
      assert cols[..|cols|] == cols;
    }
  }
}
