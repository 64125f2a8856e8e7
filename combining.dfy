/**
 * The end of `main` (src/run_market_ohlcv.py, lines 99-108), for any key
 * column: the price frame left-merged with the two short-selling frames,
 * the added columns' gaps set to 0, and the rows sorted newest first.
 */
module Combining {
  import opened Cells
  import opened Dates
  import opened Frames
  import opened Steps
  import opened Sorting
  import opened Merging

  /** The labels the two merges add: the other columns of `v`, then those of `b`. */
  function Added(v: Table, b: Table, key: string): (r: seq<string>)
    ensures key !in r
    ensures forall c :: c in r <==> (c in v.columns || c in b.columns) && c != key
  {
    Without(v.columns, key) + Without(b.columns, key)
  }

  /** Lines 99-105: the two merges, then every gap in the added columns set to 0. */
  function Combine(p: Table, v: Table, b: Table, key: string): (r: Table)
    requires Chainable(p, v, b, key)
    ensures WellFormed(r) && r.columns == p.columns + Added(v, b, key)
    ensures |r.rows| >= |p.rows|
  {
    MergeTwoKeys(p, v, b, key);
    FilledCells(MergeTwo(p, v, b, key), Added(v, b, key));
    Filled(MergeTwo(p, v, b, key), Added(v, b, key))
  }

  /** Line 108: the combined rows, newest key first. */
  function Arrange(p: Table, v: Table, b: Table, key: string): (r: Table)
    requires Chainable(p, v, b, key)
    ensures r.columns == Combine(p, v, b, key).columns
    ensures multiset(r.rows) == multiset(Combine(p, v, b, key).rows)
  {
    var c := Combine(p, v, b, key);
    Table(c.columns, SortRows(c.rows, key, true))
  }

  /** Filling columns other than the key keeps a frame's shape and its keys. */
  lemma FilledKeys(t: Table, cols: seq<string>, key: string)
    requires WellFormed(t) && key in t.columns && key !in cols
    ensures WellFormed(Filled(t, cols)) && Filled(t, cols).columns == t.columns
    ensures |Filled(t, cols).rows| == |t.rows| && HasColumn(Filled(t, cols).rows, key)
    ensures forall k :: k in Keys(Filled(t, cols).rows, key) <==> k in Keys(t.rows, key)
  {
    FilledCells(t, cols);
    WellFormedHasColumn(t, key);
    var out := Filled(t, cols);
    assert forall i :: 0 <= i < |out.rows| ==> Keys(out.rows, key)[i] == Keys(t.rows, key)[i];
  }

  /** A key with no row in a frame matches nothing, so its filled cell is 0. */
  lemma UnmatchedCell(rows: seq<Row>, key: string, k: Cell, c: string)
    requires HasColumn(rows, key) && k !in Keys(rows, key)
    ensures FillZero(MatchedCell(rows, key, k, c)) == Num(0.0)
  {
  }

  /** Whatever the short frames hold, the combined frame has exactly the price frame's keys. */
  lemma CombineKeys(p: Table, v: Table, b: Table, key: string)
    requires Chainable(p, v, b, key)
    ensures HasColumn(Combine(p, v, b, key).rows, key)
    ensures forall k :: k in Keys(Combine(p, v, b, key).rows, key) <==> k in Keys(p.rows, key)
  {
    MergeTwoKeys(p, v, b, key);
    FilledKeys(MergeTwo(p, v, b, key), Added(v, b, key), key);
  }

  /** Lines 103-105: no row of the combined frame has a missing cell in an added column. */
  lemma CombineFilled(p: Table, v: Table, b: Table, key: string)
    requires Chainable(p, v, b, key)
    ensures forall x: Row, c :: x in Combine(p, v, b, key).rows && c in Added(v, b, key) ==> c in x && !x[c].Missing?
  {
    var m := MergeTwo(p, v, b, key);
    FilledCells(m, Added(v, b, key));
    var out := Combine(p, v, b, key);
    forall x: Row, c | x in out.rows && c in Added(v, b, key)
      ensures c in x && !x[c].Missing?
    {
      var i :| 0 <= i < |out.rows| && out.rows[i] == x;
      assert c in m.columns;
    }
  }

  /**
   * When neither short frame repeats a key, the combined frame has one row
   * per price row, in the same order, with the price cells unchanged.
   */
  lemma CombineKeepsPrice(p: Table, v: Table, b: Table, key: string)
    requires Chainable(p, v, b, key) && DistinctKeys(v.rows, key) && DistinctKeys(b.rows, key)
    ensures |Combine(p, v, b, key).rows| == |p.rows|
    ensures forall i, c :: 0 <= i < |p.rows| && c in p.columns ==>
      c in Combine(p, v, b, key).rows[i] && Combine(p, v, b, key).rows[i][c] == p.rows[i][c]
  {
    MergeTwoUnique(p, v, b, key);
    FilledCells(MergeTwo(p, v, b, key), Added(v, b, key));
    assert forall c :: c in p.columns ==> c !in Added(v, b, key);
    forall i | 0 <= i < |p.rows|
      ensures RowOf(p.rows[i], p.columns)
    {
      assert p.rows[i] in p.rows;
    }
  }

  /**
   * When neither short frame repeats a key, each cell the first short frame
   * adds is taken from its row with the price row's key, 0 where there is
   * none or its cell is missing.
   */
  lemma CombineFirstCells(p: Table, v: Table, b: Table, key: string)
    requires Chainable(p, v, b, key) && DistinctKeys(v.rows, key) && DistinctKeys(b.rows, key)
    ensures |Combine(p, v, b, key).rows| == |p.rows| && HasColumn(p.rows, key) && HasColumn(v.rows, key)
    ensures forall i, c :: 0 <= i < |p.rows| && c in Without(v.columns, key) ==>
      && c in Combine(p, v, b, key).rows[i]
      && Combine(p, v, b, key).rows[i][c] == FillZero(MatchedCell(v.rows, key, p.rows[i][key], c))
  {
    WellFormedHasColumn(p, key);
    WellFormedHasColumn(v, key);
    MergeTwoUnique(p, v, b, key);
    FilledCells(MergeTwo(p, v, b, key), Added(v, b, key));
  }

  /** Likewise for each cell the second short frame adds. */
  lemma CombineSecondCells(p: Table, v: Table, b: Table, key: string)
    requires Chainable(p, v, b, key) && DistinctKeys(v.rows, key) && DistinctKeys(b.rows, key)
    ensures |Combine(p, v, b, key).rows| == |p.rows| && HasColumn(p.rows, key) && HasColumn(b.rows, key)
    ensures forall i, c :: 0 <= i < |p.rows| && c in Without(b.columns, key) ==>
      && c in Combine(p, v, b, key).rows[i]
      && Combine(p, v, b, key).rows[i][c] == FillZero(MatchedCell(b.rows, key, p.rows[i][key], c))
  {
    WellFormedHasColumn(p, key);
    WellFormedHasColumn(b, key);
    MergeTwoUnique(p, v, b, key);
    FilledCells(MergeTwo(p, v, b, key), Added(v, b, key));
  }

  /**
   * A combined row whose key no row of a short frame has holds 0 in every
   * column that frame adds, whether or not any frame repeats a key.
   */
  lemma UnmatchedIsZero(p: Table, v: Table, b: Table, key: string)
    requires Chainable(p, v, b, key)
    ensures HasColumn(v.rows, key) && HasColumn(b.rows, key)
    ensures forall x :: x in Combine(p, v, b, key).rows ==> key in x
    ensures forall x :: x in Combine(p, v, b, key).rows && x[key] !in Keys(v.rows, key) ==>
      forall c :: c in Without(v.columns, key) ==> c in x && x[c] == Num(0.0)
    ensures forall x :: x in Combine(p, v, b, key).rows && x[key] !in Keys(b.rows, key) ==>
      forall c :: c in Without(b.columns, key) ==> c in x && x[c] == Num(0.0)
  {
    WellFormedHasColumn(v, key);
    WellFormedHasColumn(b, key);
    forall x | x in Combine(p, v, b, key).rows
      ensures key in x
      ensures x[key] !in Keys(v.rows, key) ==> forall c :: c in Without(v.columns, key) ==> c in x && x[c] == Num(0.0)
      ensures x[key] !in Keys(b.rows, key) ==> forall c :: c in Without(b.columns, key) ==> c in x && x[c] == Num(0.0)
    {
      CombinedRow(p, v, b, key, x);
    }
  }

  /** One combined row: its key, and 0 under each column added by a short frame that lacks the key. */
  lemma CombinedRow(p: Table, v: Table, b: Table, key: string, x: Row)
    requires Chainable(p, v, b, key) && x in Combine(p, v, b, key).rows
    ensures HasColumn(v.rows, key) && HasColumn(b.rows, key) && key in x
    ensures x[key] !in Keys(v.rows, key) ==> forall c :: c in Without(v.columns, key) ==> c in x && x[c] == Num(0.0)
    ensures x[key] !in Keys(b.rows, key) ==> forall c :: c in Without(b.columns, key) ==> c in x && x[c] == Num(0.0)
  {
    FirstOfTwo(p, v, b, key);
    var m := MergeTwo(p, v, b, key);
    var out := Combine(p, v, b, key);
    FilledCells(m, Added(v, b, key));
    var j :| 0 <= j < |out.rows| && out.rows[j] == x;
    var y := m.rows[j];
    assert y in LeftMerge(LeftMerge(p, v, key), b, key).rows;
    var l1 := LeftMergeOrigin(LeftMerge(p, v, key), b, key, y);
    var l0 := LeftMergeOrigin(p, v, key, l1);
    assert x[key] == y[key] == l1[key] == l0[key];
  }

  /** Every combined row carries one of the price frame's date keys. */
  lemma CombineDates(p: Table, v: Table, b: Table, key: string)
    requires Chainable(p, v, b, key) && DateKeys(p.rows, key)
    ensures DateKeys(Combine(p, v, b, key).rows, key)
  {
    CombineKeys(p, v, b, key);
    WellFormedHasColumn(p, key);
    DateKeysFromKeys(Combine(p, v, b, key).rows, p.rows, key);
  }

  /**
   * Line 108: the arranged frame holds the combined rows rearranged newest
   * first, missing keys last, under the same columns.
   */
  lemma ArrangeSorted(p: Table, v: Table, b: Table, key: string)
    requires Chainable(p, v, b, key) && DateKeys(p.rows, key)
    ensures WellFormed(Arrange(p, v, b, key)) && Arrange(p, v, b, key).columns == p.columns + Added(v, b, key)
    ensures multiset(Arrange(p, v, b, key).rows) == multiset(Combine(p, v, b, key).rows)
    ensures HasColumn(Arrange(p, v, b, key).rows, key) && DateKeys(Arrange(p, v, b, key).rows, key)
    ensures SortedBy(Arrange(p, v, b, key).rows, key, true)
  {
    CombineKeys(p, v, b, key);
    CombineDates(p, v, b, key);
    var c := Combine(p, v, b, key);
    var out := Arrange(p, v, b, key);
    SortRowsSorted(c.rows, key, true);
    assert out.rows == SortRows(c.rows, key, true);
    forall x | x in out.rows
      ensures RowOf(x, c.columns)
    {
      assert x in multiset(c.rows);
      var i :| 0 <= i < |c.rows| && c.rows[i] == x;
    }
    WellFormedByMembers(c.columns, out.rows);
  }

  /** The arranged frame has exactly the price keys, and no missing cell in an added column. */
  lemma ArrangeContents(p: Table, v: Table, b: Table, key: string)
    requires Chainable(p, v, b, key) && DateKeys(p.rows, key)
    ensures HasColumn(Arrange(p, v, b, key).rows, key)
    ensures forall k :: k in Keys(Arrange(p, v, b, key).rows, key) <==> k in Keys(p.rows, key)
    ensures forall x: Row, c :: x in Arrange(p, v, b, key).rows && c in Added(v, b, key) ==> c in x && !x[c].Missing?
  {
    ArrangeSorted(p, v, b, key);
    CombineKeys(p, v, b, key);
    CombineFilled(p, v, b, key);
    var c := Combine(p, v, b, key);
    var out := Arrange(p, v, b, key);
    SameElementsKeys(out.rows, c.rows, key);
    forall x | x in out.rows
      ensures x in c.rows
    {
      assert x in multiset(c.rows);
    }
  }

  /**
   * When no frame repeats a key, the arranged frame has one row per price
   * row, each key once, in calendar order, the latest day first.
   */
  lemma ArrangeNewestFirst(p: Table, v: Table, b: Table, key: string)
    requires Chainable(p, v, b, key) && DateKeys(p.rows, key) && DistinctKeys(p.rows, key)
    requires DistinctKeys(v.rows, key) && DistinctKeys(b.rows, key)
    ensures |Arrange(p, v, b, key).rows| == |p.rows|
    ensures HasColumn(Arrange(p, v, b, key).rows, key) && DistinctKeys(Arrange(p, v, b, key).rows, key)
    ensures Chronological(Arrange(p, v, b, key).rows, key, true)
  {
    ArrangeSorted(p, v, b, key);
    CombineKeys(p, v, b, key);
    CombineKeepsPrice(p, v, b, key);
    var c := Combine(p, v, b, key);
    var out := Arrange(p, v, b, key);
    WellFormedHasColumn(p, key);
    forall i | 0 <= i < |c.rows|
      ensures c.rows[i][key] == p.rows[i][key]
    {
      assert key in p.columns;
    }
    SortRowsDistinct(c.rows, key, true);
    SortedChronological(out.rows, key, true);
  }
}
