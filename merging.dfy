/**
 * `left.merge(right, on=key, how="left")` (src/run_market_ohlcv.py, line 100):
 * each left row, in order, joined to every right row with the same key, in
 * right-table order, or padded with missing cells when none has it.
 */
module Merging {
  import opened Wrappers
  import opened Cells
  import opened Frames
  import opened Steps

  /** The labels of `columns` other than `key`, in order. */
  function Without(columns: seq<string>, key: string): (r: seq<string>)
    ensures forall c :: c in r <==> c in columns && c != key
    ensures Distinct(columns) ==> Distinct(r)
  {
    if columns == [] then []
    else
      var rest := Without(columns[1..], key);
      assert forall c :: c in columns <==> c == columns[0] || c in columns[1..];
      if columns[0] == key then rest
      else
        assert Distinct(columns) ==> columns[0] !in columns[1..];
        [columns[0]] + rest
  }

  /** The rows of `rows` whose `key` cell is `k`, in order. */
  function Matches(rows: seq<Row>, key: string, k: Cell): (r: seq<Row>)
    requires HasColumn(rows, key)
    ensures HasColumn(r, key)
    ensures forall x :: x in r <==> x in rows && x[key] == k
  {
    if rows == [] then []
    else
      assert forall x :: x in rows <==> x == rows[0] || x in rows[1..];
      var rest := Matches(rows[1..], key, k);
      if rows[0][key] == k then [rows[0]] + rest else rest
  }

  /** The matches keep the right table's order and repetition: match j is the row at the j-th matching position. */
  lemma {:induction false} MatchesPositions(rows: seq<Row>, key: string, k: Cell)
    requires HasColumn(rows, key)
    ensures |Matches(rows, key, k)| == |Where(rows, Equals(key, k))|
    ensures forall j :: 0 <= j < |Matches(rows, key, k)| ==>
      Matches(rows, key, k)[j] == rows[Where(rows, Equals(key, k))[j]]
  {
    if rows != [] {
      MatchesPositions(rows[1..], key, k);
      var tail, ix := Matches(rows[1..], key, k), Where(rows[1..], Equals(key, k));
      var r, p := ShiftPositions(rows, tail, ix, rows[0][key] == k);
      assert Matches(rows, key, k) == r;
      assert Where(rows, Equals(key, k)) == p;
    }
  }

  /** A row with a missing cell under each of `columns`. */
  function Blank(columns: seq<string>): (r: Row)
    ensures forall c :: c in r <==> c in columns
    ensures forall c :: c in r ==> r[c] == Missing
  {
    map c | c in columns :: Missing
  }

  /** The left row followed by the right row's cells other than the key. */
  function Join(l: Row, m: Row, key: string): Row {
    l + (m - {key})
  }

  /** The output rows contributed by one left row. */
  function MergeRow(l: Row, right: Table, key: string): (r: seq<Row>)
    requires key in l && HasColumn(right.rows, key)
    ensures |r| >= 1 && HasColumn(r, key)
    ensures forall x :: x in r ==> x[key] == l[key]
  {
    var ms := Matches(right.rows, key, l[key]);
    if ms == [] then [Join(l, Blank(right.columns), key)]
    else seq(|ms|, k requires 0 <= k < |ms| => Join(l, ms[k], key))
  }

  /**
   * One left row yields one output row per right row with its key, in
   * right-table order, or a single padded row when there is none.
   */
  lemma MergeRowCount(l: Row, right: Table, key: string)
    requires key in l && HasColumn(right.rows, key)
    ensures var ix := Where(right.rows, Equals(key, l[key]));
      && |MergeRow(l, right, key)| == (if ix == [] then 1 else |ix|)
      && (ix == [] ==> MergeRow(l, right, key) == [Join(l, Blank(right.columns), key)])
      && forall j :: 0 <= j < |ix| ==> MergeRow(l, right, key)[j] == Join(l, right.rows[ix[j]], key)
  {
    MatchesPositions(right.rows, key, l[key]);
  }

  function MergeRows(left: seq<Row>, right: Table, key: string): (r: seq<Row>)
    requires HasColumn(left, key) && HasColumn(right.rows, key)
    ensures |r| >= |left| && HasColumn(r, key)
  {
    if left == [] then []
    else MergeRow(left[0], right, key) + MergeRows(left[1..], right, key)
  }

  /** The merged frame: the left columns, then the right's other columns. */
  function LeftMerge(left: Table, right: Table, key: string): (r: Table)
    requires WellFormed(left) && WellFormed(right) && key in left.columns && key in right.columns
    ensures r.columns == left.columns + Without(right.columns, key)
  {
    WellFormedHasColumn(left, key);
    WellFormedHasColumn(right, key);
    Table(left.columns + Without(right.columns, key), MergeRows(left.rows, right, key))
  }

  /** The two frames share no label but the key (pandas would otherwise add suffixes). */
  predicate Disjoint(left: Table, right: Table, key: string) {
    forall c :: c in right.columns && c != key ==> c !in left.columns
  }

  lemma RowOfMember(t: Table, x: Row)
    requires WellFormed(t) && x in t.rows
    ensures RowOf(x, t.columns)
  {
  }

  /** A joined row has the left labels and the right's other labels. */
  lemma JoinRowOf(l: Row, m: Row, key: string, lcols: seq<string>, rcols: seq<string>)
    requires RowOf(l, lcols) && RowOf(m, rcols) && key in lcols
    ensures RowOf(Join(l, m, key), lcols + Without(rcols, key))
    ensures Join(l, m, key)[key] == l[key]
  {
    var x := Join(l, m, key);
    forall c
      ensures c in x <==> c in lcols + Without(rcols, key)
    {
      assert c in x <==> c in l || (c in m && c != key);
    }
  }

  /** Each row one left row contributes has every label once, and the left row's key. */
  lemma MergeRowShape(l: Row, right: Table, key: string, columns: seq<string>)
    requires RowOf(l, columns) && key in columns && WellFormed(right) && key in right.columns
    requires HasColumn(right.rows, key)
    ensures |MergeRow(l, right, key)| >= 1
    ensures forall x :: x in MergeRow(l, right, key) ==>
      RowOf(x, columns + Without(right.columns, key)) && x[key] == l[key]
  {
    var ms := Matches(right.rows, key, l[key]);
    var out := MergeRow(l, right, key);
    if ms == [] {
      JoinRowOf(l, Blank(right.columns), key, columns, right.columns);
    } else {
      forall k | 0 <= k < |ms|
        ensures RowOf(out[k], columns + Without(right.columns, key)) && out[k][key] == l[key]
      {
        assert ms[k] in right.rows;
        RowOfMember(right, ms[k]);
        JoinRowOf(l, ms[k], key, columns, right.columns);
      }
    }
  }

  /** Every output row comes from some left row. */
  lemma {:induction false} MergeRowsOrigin(left: seq<Row>, right: Table, key: string, x: Row)
    requires HasColumn(left, key) && HasColumn(right.rows, key)
    requires x in MergeRows(left, right, key)
    ensures exists i :: 0 <= i < |left| && x in MergeRow(left[i], right, key)
  {
    if x !in MergeRow(left[0], right, key) {
      MergeRowsOrigin(left[1..], right, key, x);
      var i :| 0 <= i < |left| - 1 && x in MergeRow(left[1..][i], right, key);
      assert left[1..][i] == left[i + 1];
    }
  }

  /** Every left row's output rows are in the result. */
  lemma {:induction false} MergeRowsReach(left: seq<Row>, right: Table, key: string, i: nat)
    requires HasColumn(left, key) && HasColumn(right.rows, key) && i < |left|
    ensures forall x :: x in MergeRow(left[i], right, key) ==> x in MergeRows(left, right, key)
  {
    var head := MergeRow(left[0], right, key);
    var rest := MergeRows(left[1..], right, key);
    assert MergeRows(left, right, key) == head + rest;
    if i > 0 {
      MergeRowsReach(left[1..], right, key, i - 1);
      assert left[1..][i - 1] == left[i];
      assert forall x :: x in rest ==> x in head + rest;
    } else {
      assert forall x :: x in head ==> x in head + rest;
    }
  }

  lemma ConcatDistinct(a: seq<string>, b: seq<string>)
    requires Distinct(a) && Distinct(b) && forall c :: c in b ==> c !in a
    ensures Distinct(a + b)
  {
    var cs := a + b;
    forall i, j | 0 <= i < j < |cs|
      ensures cs[i] != cs[j]
    {
      if i < |a| && j >= |a| {
        assert cs[j] in b && cs[i] in a;
      }
    }
  }

  /** The merged table is a well-formed frame with at least one row per left row. */
  lemma LeftMergeShape(left: Table, right: Table, key: string)
    requires WellFormed(left) && WellFormed(right) && key in left.columns && key in right.columns
    requires Disjoint(left, right, key)
    ensures WellFormed(LeftMerge(left, right, key))
    ensures |LeftMerge(left, right, key).rows| >= |left.rows|
    ensures HasColumn(LeftMerge(left, right, key).rows, key)
  {
    WellFormedHasColumn(left, key);
    WellFormedHasColumn(right, key);
    var out := LeftMerge(left, right, key);
    forall j | 0 <= j < |out.rows|
      ensures RowOf(out.rows[j], out.columns)
    {
      assert out.rows[j] in out.rows;
      MergeRowsOrigin(left.rows, right, key, out.rows[j]);
      var i :| 0 <= i < |left.rows| && out.rows[j] in MergeRow(left.rows[i], right, key);
      MergeRowShape(left.rows[i], right, key, left.columns);
    }
    ConcatDistinct(left.columns, Without(right.columns, key));
  }

  /** Every output key is a left key, and every left key is an output key. */
  lemma LeftMergeKeys(left: Table, right: Table, key: string)
    requires WellFormed(left) && WellFormed(right) && key in left.columns && key in right.columns
    ensures forall k :: k in Keys(LeftMerge(left, right, key).rows, key) <==> k in Keys(left.rows, key)
  {
    LeftMergeKeysFrom(left, right, key);
    LeftMergeKeysTo(left, right, key);
  }

  /** Every merged row's key is some left row's key. */
  lemma LeftMergeKeysFrom(left: Table, right: Table, key: string)
    requires WellFormed(left) && WellFormed(right) && key in left.columns && key in right.columns
    ensures HasColumn(left.rows, key)
    ensures forall k :: k in Keys(LeftMerge(left, right, key).rows, key) ==> k in Keys(left.rows, key)
  {
    WellFormedHasColumn(left, key);
    WellFormedHasColumn(right, key);
    var out := LeftMerge(left, right, key).rows;
    forall k | k in Keys(out, key)
      ensures k in Keys(left.rows, key)
    {
      var j :| 0 <= j < |out| && Keys(out, key)[j] == k;
      assert out[j] in out;
      MergeRowsOrigin(left.rows, right, key, out[j]);
      var i :| 0 <= i < |left.rows| && out[j] in MergeRow(left.rows[i], right, key);
      assert Keys(left.rows, key)[i] == k;
    }
  }

  /** Every left row's key is some merged row's key. */
  lemma LeftMergeKeysTo(left: Table, right: Table, key: string)
    requires WellFormed(left) && WellFormed(right) && key in left.columns && key in right.columns
    ensures HasColumn(left.rows, key)
    ensures forall k :: k in Keys(left.rows, key) ==> k in Keys(LeftMerge(left, right, key).rows, key)
  {
    WellFormedHasColumn(left, key);
    WellFormedHasColumn(right, key);
    var out := LeftMerge(left, right, key).rows;
    forall k | k in Keys(left.rows, key)
      ensures k in Keys(out, key)
    {
      var i :| 0 <= i < |left.rows| && Keys(left.rows, key)[i] == k;
      var block := MergeRow(left.rows[i], right, key);
      assert block[0] in block;
      MergeRowsReach(left.rows, right, key, i);
      RowKeyInKeys(out, key, block[0]);
    }
  }


  /**
   * Every merged row extends some left row: it keeps that row's cells, key
   * included, and when no right row has that key it has a missing cell under
   * each other right column. Holds whether or not the right keys repeat.
   */
  lemma LeftMergeOrigin(left: Table, right: Table, key: string, y: Row) returns (l: Row)
    requires WellFormed(left) && WellFormed(right) && key in left.columns && key in right.columns
    requires Disjoint(left, right, key) && y in LeftMerge(left, right, key).rows
    ensures l in left.rows && key in l && HasColumn(right.rows, key)
    ensures forall c :: c in l ==> c in y && y[c] == l[c]
    ensures l[key] !in Keys(right.rows, key) ==>
      forall c :: c in Without(right.columns, key) ==> c in y && y[c] == Missing
  {
    WellFormedHasColumn(left, key);
    WellFormedHasColumn(right, key);
    MergeRowsOrigin(left.rows, right, key, y);
    var i :| 0 <= i < |left.rows| && y in MergeRow(left.rows[i], right, key);
    l := left.rows[i];
    assert RowOf(l, left.columns);
    MergeRowKeeps(l, right, key, left.columns, y);
  }

  /** One left row's output rows keep its cells, and are blank on the right when nothing matches. */
  lemma MergeRowKeeps(l: Row, right: Table, key: string, columns: seq<string>, y: Row)
    requires RowOf(l, columns) && key in columns && WellFormed(right) && key in right.columns
    requires HasColumn(right.rows, key) && forall c :: c in right.columns && c != key ==> c !in columns
    requires y in MergeRow(l, right, key)
    ensures forall c :: c in l ==> c in y && y[c] == l[c]
    ensures l[key] !in Keys(right.rows, key) ==>
      forall c :: c in Without(right.columns, key) ==> c in y && y[c] == Missing
  {
    var ms := Matches(right.rows, key, l[key]);
    if ms == [] {
      assert y == Join(l, Blank(right.columns), key);
    } else {
      var k :| 0 <= k < |ms| && y == Join(l, ms[k], key);
      MatchedKey(right, key, l[key], ms[k]);
    }
  }

  /** A matching right row puts its key among the right keys; its other labels are the right's. */
  lemma MatchedKey(right: Table, key: string, k: Cell, m: Row)
    requires WellFormed(right) && HasColumn(right.rows, key) && m in Matches(right.rows, key, k)
    ensures k in Keys(right.rows, key) && RowOf(m, right.columns)
  {
    var j :| 0 <= j < |right.rows| && right.rows[j] == m;
    assert Keys(right.rows, key)[j] == k;
  }

  // ---------------------------------------------------------------------
  // Right tables with one row per key
  // ---------------------------------------------------------------------

  /** The first row of `rows` whose `key` cell is `k`. */
  function Lookup(rows: seq<Row>, key: string, k: Cell): (r: Option<Row>)
    requires HasColumn(rows, key)
    ensures r.Some? ==> r.value in rows && r.value[key] == k
    ensures r.None? <==> k !in Keys(rows, key)
  {
    if rows == [] then None
    else
      assert Keys(rows, key) == [rows[0][key]] + Keys(rows[1..], key);
      if rows[0][key] == k then Some(rows[0]) else Lookup(rows[1..], key, k)
  }

  /** With unique keys, Lookup finds each row by its own key. */
  lemma LookupFinds(rows: seq<Row>, key: string, i: nat)
    requires HasColumn(rows, key) && DistinctKeys(rows, key) && i < |rows|
    ensures Lookup(rows, key, rows[i][key]) == Some(rows[i])
  {
    assert Keys(rows, key)[i] == rows[i][key];
    var m := Lookup(rows, key, rows[i][key]).value;
    var j :| 0 <= j < |rows| && rows[j] == m;
    assert rows[j][key] == rows[i][key];
  }

  /** With unique keys, a left row matches the Lookup row alone, or nothing. */
  lemma {:induction false} MatchesUnique(rows: seq<Row>, key: string, k: Cell)
    requires HasColumn(rows, key) && DistinctKeys(rows, key)
    ensures Matches(rows, key, k) == match Lookup(rows, key, k) case None => [] case Some(m) => [m]
  {
    if rows != [] {
      var tail := rows[1..];
      assert DistinctKeys(tail, key) by {
        forall i, j | 0 <= i < j < |tail|
          ensures tail[i][key] != tail[j][key]
        {
          assert tail[i] == rows[i + 1] && tail[j] == rows[j + 1];
        }
      }
      MatchesUnique(tail, key, k);
      if rows[0][key] == k {
        forall j | 0 <= j < |tail|
          ensures Keys(tail, key)[j] != k
        {
          assert tail[j] == rows[j + 1];
        }
        assert k !in Keys(tail, key);
      }
    }
  }

  /** The single output row of `l` when no two right rows share a key. */
  function MergedRow(l: Row, right: Table, key: string): (r: Row)
    requires key in l && HasColumn(right.rows, key)
    ensures key in r && r[key] == l[key] && l.Keys <= r.Keys
  {
    match Lookup(right.rows, key, l[key])
    case None => Join(l, Blank(right.columns), key)
    case Some(m) => Join(l, m, key)
  }

  /** The cell under `c` of the right row with key `k`, or missing when there is none. */
  function MatchedCell(rows: seq<Row>, key: string, k: Cell, c: string): Cell
    requires HasColumn(rows, key)
  {
    match Lookup(rows, key, k)
    case None => Missing
    case Some(m) => if c in m then m[c] else Missing
  }

  lemma MergeRowSingle(l: Row, right: Table, key: string)
    requires key in l && HasColumn(right.rows, key) && DistinctKeys(right.rows, key)
    ensures MergeRow(l, right, key) == [MergedRow(l, right, key)]
  {
    MatchesUnique(right.rows, key, l[key]);
  }

  /** With unique right keys the merge is row for row: output row i comes from left row i. */
  lemma {:induction false} MergeRowsUnique(left: seq<Row>, right: Table, key: string)
    requires HasColumn(left, key) && HasColumn(right.rows, key) && DistinctKeys(right.rows, key)
    ensures |MergeRows(left, right, key)| == |left|
    ensures forall i :: 0 <= i < |left| ==> MergeRows(left, right, key)[i] == MergedRow(left[i], right, key)
  {
    if left != [] {
      MergeRowsUnique(left[1..], right, key);
      MergeRowSingle(left[0], right, key);
      var out := MergeRows(left, right, key);
      var rest := MergeRows(left[1..], right, key);
      assert out == [MergedRow(left[0], right, key)] + rest;
      forall i | 1 <= i < |left|
        ensures out[i] == MergedRow(left[i], right, key)
      {
        ConsIndex(MergedRow(left[0], right, key), rest, i);
        TailIndex(left, i);
      }
    }
  }

  lemma ConsIndex<T>(x: T, s: seq<T>, i: nat)
    requires 1 <= i <= |s|
    ensures ([x] + s)[i] == s[i - 1]
  {
  }

  lemma TailIndex<T>(s: seq<T>, i: nat)
    requires 1 <= i < |s|
    ensures s[1..][i - 1] == s[i]
  {
  }

  /**
   * The cells of a merged row: the left row's cells unchanged; under each
   * other right column, the matching right row's cell, or missing when none matches.
   */
  lemma MergedRowCells(l: Row, right: Table, key: string)
    requires key in l && WellFormed(right) && key in right.columns && HasColumn(right.rows, key)
    requires forall c :: c in right.columns && c != key ==> c !in l
    ensures forall c :: c in l ==> c in MergedRow(l, right, key) && MergedRow(l, right, key)[c] == l[c]
    ensures forall c :: c in Without(right.columns, key) ==>
      c in MergedRow(l, right, key) && MergedRow(l, right, key)[c] == MatchedCell(right.rows, key, l[key], c)
  {
    match Lookup(right.rows, key, l[key])
    case None =>
    case Some(m) => RowOfMember(right, m);
  }

  /**
   * With unique right keys the merge has one row per left row, in order:
   * left row i's cells unchanged, extended under each other right column by
   * the cell of the right row with the same key, or by a missing cell.
   */
  lemma LeftMergeUnique(left: Table, right: Table, key: string)
    requires WellFormed(left) && WellFormed(right) && key in left.columns && key in right.columns
    requires Disjoint(left, right, key) && DistinctKeys(right.rows, key)
    ensures |LeftMerge(left, right, key).rows| == |left.rows|
    ensures forall i, c :: 0 <= i < |left.rows| && c in left.rows[i] ==>
      c in LeftMerge(left, right, key).rows[i] && LeftMerge(left, right, key).rows[i][c] == left.rows[i][c]
  {
    WellFormedHasColumn(left, key);
    MergeRowsUnique(left.rows, right, key);
    forall i | 0 <= i < |left.rows|
      ensures forall c :: c in left.rows[i] ==>
        c in MergedRow(left.rows[i], right, key) && MergedRow(left.rows[i], right, key)[c] == left.rows[i][c]
    {
      MergedRowCells(left.rows[i], right, key);
    }
  }

  /**
   * When the right frame has no repeated key, each added cell of the i-th
   * merged row comes from the right row with the i-th left row's key.
   */
  lemma LeftMergeMatched(left: Table, right: Table, key: string)
    requires WellFormed(left) && WellFormed(right) && key in left.columns && key in right.columns
    requires Disjoint(left, right, key) && DistinctKeys(right.rows, key)
    ensures |LeftMerge(left, right, key).rows| == |left.rows| && HasColumn(left.rows, key)
    ensures forall i, c :: 0 <= i < |left.rows| && c in Without(right.columns, key) ==>
      && c in LeftMerge(left, right, key).rows[i]
      && LeftMerge(left, right, key).rows[i][c] == MatchedCell(right.rows, key, left.rows[i][key], c)
  {
    WellFormedHasColumn(left, key);
    MergeRowsUnique(left.rows, right, key);
    forall i | 0 <= i < |left.rows|
      ensures forall c :: c in Without(right.columns, key) ==>
        c in MergedRow(left.rows[i], right, key) && MergedRow(left.rows[i], right, key)[c] == MatchedCell(right.rows, key, left.rows[i][key], c)
    {
      MergedRowCells(left.rows[i], right, key);
    }
  }


  // ---------------------------------------------------------------------
  // Two left merges in a row
  // ---------------------------------------------------------------------

  /** Three frames keyed by `key`, no two sharing another label: two left merges add no suffix. */
  ghost predicate Chainable(p: Table, v: Table, b: Table, key: string) {
    && WellFormed(p) && WellFormed(v) && WellFormed(b)
    && key in p.columns && key in v.columns && key in b.columns
    && Disjoint(p, v, key) && Disjoint(p, b, key)
    && forall c :: c in b.columns && c != key ==> c !in v.columns
  }

  /** After the first merge the third frame still shares no label but the key. */
  lemma FirstOfTwo(p: Table, v: Table, b: Table, key: string)
    requires Chainable(p, v, b, key)
    ensures WellFormed(LeftMerge(p, v, key)) && key in LeftMerge(p, v, key).columns
    ensures Disjoint(LeftMerge(p, v, key), b, key)
  {
    LeftMergeShape(p, v, key);
  }

  /** `p.merge(v, on=key, how="left").merge(b, on=key, how="left")`. */
  function MergeTwo(p: Table, v: Table, b: Table, key: string): (r: Table)
    requires Chainable(p, v, b, key)
    ensures WellFormed(r)
    ensures r.columns == p.columns + (Without(v.columns, key) + Without(b.columns, key))
  {
    FirstOfTwo(p, v, b, key);
    LeftMergeShape(LeftMerge(p, v, key), b, key);
    var r := LeftMerge(LeftMerge(p, v, key), b, key);
    assert r.columns == p.columns + (Without(v.columns, key) + Without(b.columns, key));
    r
  }

  /** Two left merges keep every row of `p` and add no key: the result has exactly the keys of `p`. */
  lemma MergeTwoKeys(p: Table, v: Table, b: Table, key: string)
    requires Chainable(p, v, b, key)
    ensures |MergeTwo(p, v, b, key).rows| >= |p.rows|
    ensures HasColumn(MergeTwo(p, v, b, key).rows, key)
    ensures forall k :: k in Keys(MergeTwo(p, v, b, key).rows, key) <==> k in Keys(p.rows, key)
  {
    FirstOfTwo(p, v, b, key);
    var m := LeftMerge(p, v, key);
    LeftMergeShape(p, v, key);
    LeftMergeKeys(p, v, key);
    LeftMergeShape(m, b, key);
    LeftMergeKeys(m, b, key);
  }

  /**
   * When neither `v` nor `b` repeats a key, two left merges give one row per
   * row of `p`, in order: its cells unchanged, then the other cells of the
   * `v` row and of the `b` row with the same key.
   */
  lemma MergeTwoUnique(p: Table, v: Table, b: Table, key: string)
    requires Chainable(p, v, b, key) && DistinctKeys(v.rows, key) && DistinctKeys(b.rows, key)
    ensures |MergeTwo(p, v, b, key).rows| == |p.rows|
    ensures forall i, c :: 0 <= i < |p.rows| && c in p.rows[i] ==>
      c in MergeTwo(p, v, b, key).rows[i] && MergeTwo(p, v, b, key).rows[i][c] == p.rows[i][c]
    ensures forall i, c :: 0 <= i < |p.rows| && c in Without(v.columns, key) ==>
      && c in MergeTwo(p, v, b, key).rows[i]
      && MergeTwo(p, v, b, key).rows[i][c] == MatchedCell(v.rows, key, p.rows[i][key], c)
    ensures forall i, c :: 0 <= i < |p.rows| && c in Without(b.columns, key) ==>
      && c in MergeTwo(p, v, b, key).rows[i]
      && MergeTwo(p, v, b, key).rows[i][c] == MatchedCell(b.rows, key, p.rows[i][key], c)
  {
    FirstOfTwo(p, v, b, key);
    WellFormedHasColumn(p, key);
    LeftMergeUnique(p, v, key);
    LeftMergeMatched(p, v, key);
    LeftMergeUnique(LeftMerge(p, v, key), b, key);
    LeftMergeMatched(LeftMerge(p, v, key), b, key);
  }
}
