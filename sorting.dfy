/**
 * `sort_values("일자", ascending=...)` on the date column
 * (src/run_market_ohlcv.py, lines 67 and 108), written as an insertion sort.
 */
module Sorting {
  import opened Cells
  import opened Dates
  import opened Frames
  import opened Steps

  /**
   * `a` may come before `b`: by the string order of the dates, ascending or
   * descending, with missing dates last either way (na_position="last").
   * Other cells never reach a sort, since ToDate rejects them.
   */
  predicate KeyLe(a: Cell, b: Cell, descending: bool) {
    if a.Missing? then b.Missing?
    else if b.Missing? then true
    else if a.Text? && b.Text? then
      if descending then !LexLess(a.text, b.text) else !LexLess(b.text, a.text)
    else true
  }

  /** Every row's `col` cell is a parsed date or missing. */
  predicate DateKeys(rows: seq<Row>, col: string) {
    forall x :: x in rows ==> col in x && IsDateKey(x[col])
  }

  ghost predicate SortedBy(rows: seq<Row>, col: string, descending: bool)
    requires HasColumn(rows, col)
  {
    forall i, j :: 0 <= i < j < |rows| ==> KeyLe(rows[i][col], rows[j][col], descending)
  }

  lemma KeyLeTotal(a: Cell, b: Cell, descending: bool)
    ensures KeyLe(a, b, descending) || KeyLe(b, a, descending)
  {
    if a.Text? && b.Text? && LexLess(a.text, b.text) {
      LexLessAsymmetric(a.text, b.text);
    }
  }

  lemma KeyLeTransitive(a: Cell, b: Cell, c: Cell, descending: bool)
    requires IsDateKey(a) && IsDateKey(b) && IsDateKey(c)
    requires KeyLe(a, b, descending) && KeyLe(b, c, descending)
    ensures KeyLe(a, c, descending)
  {
    if a.Text? && b.Text? && c.Text? {
      var x, y, z := a.text, b.text, c.text;
      if descending {
        // !(x < y) and !(y < z): were x < z, then y < z or y == x, a contradiction either way
        if LexLess(x, z) && x != y {
          LexLessTotal(x, y);
          LexLessTransitive(y, x, z);
        }
      } else {
        if LexLess(z, x) && x != y {
          LexLessTotal(x, y);
          LexLessTransitive(z, x, y);
        }
      }
    }
  }

  /** Two different dates in sorted order are in calendar order. */
  lemma KeyLeChronological(a: Cell, b: Cell, descending: bool)
    requires IsDateKey(a) && IsDateKey(b) && a.Text? && b.Text? && a != b
    requires KeyLe(a, b, descending)
    ensures descending ==> Earlier(b.text, a.text)
    ensures !descending ==> Earlier(a.text, b.text)
  {
    LexLessTotal(a.text, b.text);
    ChronologicalOrder(a.text, b.text);
    ChronologicalOrder(b.text, a.text);
  }

  /** Places `x` before the first row it may precede. */
  function Insert(x: Row, rows: seq<Row>, col: string, descending: bool): (r: seq<Row>)
    ensures multiset(r) == multiset(rows) + multiset{x}
  {
    if rows == [] then [x]
    else if col in x && col in rows[0] && KeyLe(x[col], rows[0][col], descending) then [x] + rows
    else
      assert rows == [rows[0]] + rows[1..];
      [rows[0]] + Insert(x, rows[1..], col, descending)
  }

  /** `rows` sorted by their `col` cells; rows with equal cells keep their order. */
  function SortRows(rows: seq<Row>, col: string, descending: bool): (r: seq<Row>)
    ensures multiset(r) == multiset(rows)
    ensures |r| == |rows|
  {
    if rows == [] then []
    else
      assert rows == [rows[0]] + rows[1..];
      Insert(rows[0], SortRows(rows[1..], col, descending), col, descending)
  }

  /** Rows with the same elements as rows that all have `col` have it too. */
  lemma SameElements(a: seq<Row>, b: seq<Row>, col: string)
    requires multiset(a) == multiset(b) && HasColumn(b, col)
    ensures HasColumn(a, col)
  {
    forall i | 0 <= i < |a|
      ensures col in a[i]
    {
      assert a[i] in multiset(b);
      var j :| 0 <= j < |b| && b[j] == a[i];
    }
  }

  lemma SameElementsHasColumn(a: seq<Row>, b: seq<Row>, col: string)
    requires multiset(a) == multiset(b) && DateKeys(b, col)
    ensures DateKeys(a, col) && HasColumn(a, col)
  {
    assert forall x :: x in a ==> x in multiset(b);
    assert forall i :: 0 <= i < |a| ==> a[i] in a;
  }

  /** A row that may precede every row of a sorted sequence can head it. */
  lemma PrependSorted(y: Row, rows: seq<Row>, col: string, descending: bool)
    requires col in y && HasColumn(rows, col) && SortedBy(rows, col, descending)
    requires forall j :: 0 <= j < |rows| ==> KeyLe(y[col], rows[j][col], descending)
    ensures HasColumn([y] + rows, col) && SortedBy([y] + rows, col, descending)
  {
    var r := [y] + rows;
    forall i, j | 0 <= i < j < |r|
      ensures KeyLe(r[i][col], r[j][col], descending)
    {
      if i > 0 {
        assert r[i] == rows[i - 1] && r[j] == rows[j - 1];
      }
    }
  }

  lemma InsertDateKeys(x: Row, rows: seq<Row>, col: string, descending: bool)
    requires DateKeys(rows, col) && col in x && IsDateKey(x[col])
    ensures DateKeys(Insert(x, rows, col, descending), col)
    ensures HasColumn(Insert(x, rows, col, descending), col)
  {
    var r := Insert(x, rows, col, descending);
    assert DateKeys(rows + [x], col);
    assert multiset(r) == multiset(rows + [x]);
    SameElementsHasColumn(r, rows + [x], col);
  }

  lemma {:induction false} InsertSorted(x: Row, rows: seq<Row>, col: string, descending: bool)
    requires DateKeys(rows, col) && col in x && IsDateKey(x[col])
    requires HasColumn(rows, col) && SortedBy(rows, col, descending)
    ensures DateKeys(Insert(x, rows, col, descending), col)
    ensures HasColumn(Insert(x, rows, col, descending), col)
    ensures SortedBy(Insert(x, rows, col, descending), col, descending)
  {
    InsertDateKeys(x, rows, col, descending);
    if rows != [] {
      assert rows[0] in rows;
      if KeyLe(x[col], rows[0][col], descending) {
        PrecedesAll(x, rows, col, descending);
        PrependSorted(x, rows, col, descending);
      } else {
        var tail := rows[1..];
        assert forall y :: y in tail ==> y in rows;
        InsertSorted(x, tail, col, descending);
        HeadPrecedesInserted(x, rows, col, descending);
        PrependSorted(rows[0], Insert(x, tail, col, descending), col, descending);
      }
    }
  }

  /** A row that may precede the head of a sorted sequence may precede all of it. */
  lemma PrecedesAll(x: Row, rows: seq<Row>, col: string, descending: bool)
    requires DateKeys(rows, col) && col in x && IsDateKey(x[col])
    requires HasColumn(rows, col) && SortedBy(rows, col, descending)
    requires rows != [] && KeyLe(x[col], rows[0][col], descending)
    ensures forall j :: 0 <= j < |rows| ==> KeyLe(x[col], rows[j][col], descending)
  {
    forall j | 0 <= j < |rows|
      ensures KeyLe(x[col], rows[j][col], descending)
    {
      if j > 0 {
        assert rows[0] in rows && rows[j] in rows;
        KeyLeTransitive(x[col], rows[0][col], rows[j][col], descending);
      }
    }
  }

  /** When `x` goes past the head, the head may precede everything `x` is inserted into after it. */
  lemma HeadPrecedesInserted(x: Row, rows: seq<Row>, col: string, descending: bool)
    requires col in x && rows != [] && HasColumn(rows, col) && SortedBy(rows, col, descending)
    requires !KeyLe(x[col], rows[0][col], descending)
    requires HasColumn(Insert(x, rows[1..], col, descending), col)
    ensures forall j :: 0 <= j < |Insert(x, rows[1..], col, descending)| ==>
      KeyLe(rows[0][col], Insert(x, rows[1..], col, descending)[j][col], descending)
  {
    KeyLeTotal(x[col], rows[0][col], descending);
    var tail := rows[1..];
    var rest := Insert(x, tail, col, descending);
    forall j | 0 <= j < |rest|
      ensures KeyLe(rows[0][col], rest[j][col], descending)
    {
      assert rest[j] in multiset(tail) + multiset{x};
      if rest[j] != x {
        assert rest[j] in tail;
        var k :| 0 <= k < |tail| && tail[k] == rest[j];
        assert rows[k + 1] == rest[j];
      }
    }
  }

  /** The sort puts rows in date order (missing dates last) and keeps every row. */
  lemma {:induction false} SortRowsSorted(rows: seq<Row>, col: string, descending: bool)
    requires DateKeys(rows, col)
    ensures DateKeys(SortRows(rows, col, descending), col)
    ensures HasColumn(SortRows(rows, col, descending), col)
    ensures SortedBy(SortRows(rows, col, descending), col, descending)
  {
    if rows != [] {
      assert forall y :: y in rows[1..] ==> y in rows;
      SortRowsSorted(rows[1..], col, descending);
      assert rows[0] in rows;
      InsertSorted(rows[0], SortRows(rows[1..], col, descending), col, descending);
    }
  }

  lemma ConsKeys(y: Row, rows: seq<Row>, col: string)
    requires col in y && HasColumn(rows, col)
    ensures HasColumn([y] + rows, col) && Keys([y] + rows, col) == [y[col]] + Keys(rows, col)
    ensures DistinctKeys(rows, col) && y[col] !in Keys(rows, col) ==> DistinctKeys([y] + rows, col)
  {
    var r := [y] + rows;
    if DistinctKeys(rows, col) && y[col] !in Keys(rows, col) {
      forall i, j | 0 <= i < j < |r|
        ensures r[i][col] != r[j][col]
      {
        assert r[j] == rows[j - 1];
        if i == 0 {
          assert Keys(rows, col)[j - 1] == r[j][col];
        }
      }
    }
  }

  lemma TailKeys(rows: seq<Row>, col: string)
    requires HasColumn(rows, col) && DistinctKeys(rows, col) && rows != []
    ensures DistinctKeys(rows[1..], col) && rows[0][col] !in Keys(rows[1..], col)
  {
    assert Keys(rows, col) == [rows[0][col]] + Keys(rows[1..], col);
    forall j | 0 <= j < |rows| - 1
      ensures Keys(rows[1..], col)[j] != rows[0][col]
    {
      assert rows[1..][j] == rows[j + 1];
    }
  }

  lemma InsertHasColumn(x: Row, rows: seq<Row>, col: string, descending: bool)
    requires col in x && HasColumn(rows, col)
    ensures HasColumn(Insert(x, rows, col, descending), col)
  {
    assert HasColumn(rows + [x], col);
    assert multiset(rows + [x]) == multiset(rows) + multiset{x};
    SameElements(Insert(x, rows, col, descending), rows + [x], col);
  }

  /** Inserting a row whose key is new keeps the keys distinct and adds that key. */
  lemma {:induction false} InsertDistinct(x: Row, rows: seq<Row>, col: string, descending: bool)
    requires col in x && HasColumn(rows, col) && DistinctKeys(rows, col) && x[col] !in Keys(rows, col)
    requires HasColumn(Insert(x, rows, col, descending), col)
    ensures DistinctKeys(Insert(x, rows, col, descending), col)
    ensures forall k :: k in Keys(Insert(x, rows, col, descending), col) <==> k in Keys(rows, col) || k == x[col]
  {
    if rows == [] {
      ConsKeys(x, rows, col);
    } else if KeyLe(x[col], rows[0][col], descending) {
      ConsKeys(x, rows, col);
    } else {
      TailKeys(rows, col);
      assert Keys(rows, col) == [rows[0][col]] + Keys(rows[1..], col);
      InsertHasColumn(x, rows[1..], col, descending);
      InsertDistinct(x, rows[1..], col, descending);
      ConsKeys(rows[0], Insert(x, rows[1..], col, descending), col);
    }
  }

  /** Sorting keeps unique keys unique, and keeps the set of keys. */
  lemma {:induction false} SortRowsDistinct(rows: seq<Row>, col: string, descending: bool)
    requires HasColumn(rows, col) && DistinctKeys(rows, col)
    ensures HasColumn(SortRows(rows, col, descending), col)
    ensures DistinctKeys(SortRows(rows, col, descending), col)
    ensures forall k :: k in Keys(SortRows(rows, col, descending), col) <==> k in Keys(rows, col)
  {
    if rows != [] {
      TailKeys(rows, col);
      assert Keys(rows, col) == [rows[0][col]] + Keys(rows[1..], col);
      SortRowsDistinct(rows[1..], col, descending);
      InsertHasColumn(rows[0], SortRows(rows[1..], col, descending), col, descending);
      InsertDistinct(rows[0], SortRows(rows[1..], col, descending), col, descending);
    }
  }

  /** Rows with the same elements have the same set of keys. */
  lemma SameElementsKeys(a: seq<Row>, b: seq<Row>, col: string)
    requires multiset(a) == multiset(b) && HasColumn(a, col) && HasColumn(b, col)
    ensures forall k :: k in Keys(a, col) <==> k in Keys(b, col)
  {
    forall k | k in Keys(a, col)
      ensures k in Keys(b, col)
    {
      var i :| 0 <= i < |a| && Keys(a, col)[i] == k;
      assert a[i] in multiset(b);
      var j :| 0 <= j < |b| && b[j] == a[i];
      assert Keys(b, col)[j] == k;
    }
    forall k | k in Keys(b, col)
      ensures k in Keys(a, col)
    {
      var j :| 0 <= j < |b| && Keys(b, col)[j] == k;
      assert b[j] in multiset(a);
      var i :| 0 <= i < |a| && a[i] == b[j];
      assert Keys(a, col)[i] == k;
    }
  }

  /** Of two dated rows, the upper one holds the later day when `descending`, the earlier day otherwise. */
  ghost predicate Chronological(rows: seq<Row>, col: string, descending: bool) {
    forall i, j ::
      && 0 <= i < j < |rows| && col in rows[i] && col in rows[j]
      && rows[i][col].Text? && rows[j][col].Text?
      && DateShape(rows[i][col].text) && DateShape(rows[j][col].text)
      ==> if descending then Earlier(rows[j][col].text, rows[i][col].text)
          else Earlier(rows[i][col].text, rows[j][col].text)
  }

  /** Rows sorted by distinct date keys are in calendar order. */
  lemma SortedChronological(rows: seq<Row>, col: string, descending: bool)
    requires HasColumn(rows, col) && DateKeys(rows, col) && DistinctKeys(rows, col)
    requires SortedBy(rows, col, descending)
    ensures Chronological(rows, col, descending)
  {
    forall i, j |
      && 0 <= i < j < |rows| && col in rows[i] && col in rows[j]
      && rows[i][col].Text? && rows[j][col].Text?
      && DateShape(rows[i][col].text) && DateShape(rows[j][col].text)
      ensures if descending then Earlier(rows[j][col].text, rows[i][col].text)
              else Earlier(rows[i][col].text, rows[j][col].text)
    {
      assert rows[i] in rows && rows[j] in rows;
      KeyLeChronological(rows[i][col], rows[j][col], descending);
    }
  }

  /** Rows whose keys all occur among date-keyed rows are date-keyed. */
  lemma DateKeysFromKeys(rows: seq<Row>, other: seq<Row>, col: string)
    requires HasColumn(rows, col) && HasColumn(other, col) && DateKeys(other, col)
    requires forall k :: k in Keys(rows, col) ==> k in Keys(other, col)
    ensures DateKeys(rows, col)
  {
    forall x | x in rows
      ensures col in x && IsDateKey(x[col])
    {
      var i :| 0 <= i < |rows| && rows[i] == x;
      assert Keys(rows, col)[i] == x[col];
      assert x[col] in Keys(rows, col);
      var j :| 0 <= j < |other| && Keys(other, col)[j] == x[col];
      assert other[j] in other;
    }
  }
}
