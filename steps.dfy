/**
 * The frame operations `main` chains together (src/run_market_ohlcv.py,
 * lines 61-97): `reset_index`, renaming and selecting columns, date
 * parsing, `dropna` and `drop_duplicates`, each as a function on values.
 * A step that raises in pandas returns `Err`.
 */
module Steps {
  import opened Wrappers
  import opened Cells
  import opened Dates
  import opened Frames

  /** Why a step raises. */
  datatype Error =
    | MissingColumn(name: string)  // KeyError: a selected label is not a column
    | DuplicateLabels               // two columns would carry the same label
    | BadDate(cell: Cell)           // pd.to_datetime cannot read the cell

  /** A provider result: a frame and its index, whose name (if any) labels the dates. */
  datatype Source = Source(indexName: Option<string>, index: seq<Cell>, body: Table)

  ghost predicate SourceOk(s: Source) {
    WellFormed(s.body) && |s.index| == |s.body.rows|
  }

  /** `DataFrame.empty`: no rows or no columns. */
  predicate IsEmpty(s: Source) {
    |s.body.rows| == 0 || |s.body.columns| == 0
  }

  /** Every row has a cell under `col`. */
  predicate HasColumn(rows: seq<Row>, col: string) {
    forall i :: 0 <= i < |rows| ==> col in rows[i]
  }

  /** No two rows share their cell under `col`. */
  predicate DistinctKeys(rows: seq<Row>, col: string)
    requires HasColumn(rows, col)
  {
    forall i, j :: 0 <= i < j < |rows| ==> rows[i][col] != rows[j][col]
  }

  /** The cells under `col`, row by row. */
  function Keys(rows: seq<Row>, col: string): (ks: seq<Cell>)
    requires HasColumn(rows, col)
    ensures |ks| == |rows|
    ensures forall i :: 0 <= i < |rows| ==> ks[i] == rows[i][col]
  {
    seq(|rows|, i requires 0 <= i < |rows| => rows[i][col])
  }

  lemma RowKeyInKeys(rows: seq<Row>, col: string, y: Row)
    requires HasColumn(rows, col) && y in rows
    ensures col in y && y[col] in Keys(rows, col)
  {
    var j :| 0 <= j < |rows| && rows[j] == y;
    assert Keys(rows, col)[j] == y[col];
  }

  lemma WellFormedHasColumn(t: Table, col: string)
    requires WellFormed(t) && col in t.columns
    ensures HasColumn(t.rows, col)
  {
  }

  // ---------------------------------------------------------------------
  // reset_index
  // ---------------------------------------------------------------------

  /**
   * `if df.index.name is not None: df = df.reset_index()`: a named index
   * becomes the first column; pandas raises when a column already has its name.
   */
  function ResetIndex(s: Source): (r: Result<Table, Error>)
    requires SourceOk(s)
    ensures s.indexName.None? ==> r == Ok(s.body)
    ensures s.indexName.Some? ==> (r.Ok? <==> s.indexName.value !in s.body.columns)
    ensures r.Err? ==> r.error == DuplicateLabels
    ensures r.Ok? ==> WellFormed(r.value) && |r.value.rows| == |s.body.rows|
    ensures r.Ok? ==> |r.value.columns| >= |s.body.columns|
    ensures r.Ok? && s.indexName.Some? ==>
      && r.value.columns == [s.indexName.value] + s.body.columns
      && forall i :: 0 <= i < |s.body.rows| ==>
           && r.value.rows[i][s.indexName.value] == s.index[i]
           && forall c :: c in s.body.rows[i] ==> r.value.rows[i][c] == s.body.rows[i][c]
  {
    match s.indexName
    case None => Ok(s.body)
    case Some(name) =>
      if name in s.body.columns then Err(DuplicateLabels)
      else
        var rows := seq(|s.body.rows|, i requires 0 <= i < |s.body.rows| => s.body.rows[i][name := s.index[i]]);
        Ok(Table([name] + s.body.columns, rows))
  }

  /**
   * The cell under `n` in row `i` of a fetched frame once its index is reset:
   * the index value when the index is named `n`, else the body's cell.
   */
  function Fetched(src: Source, i: nat, n: string): Cell
    requires SourceOk(src) && i < |src.body.rows|
  {
    if src.indexName == Some(n) then src.index[i]
    else if n in src.body.rows[i] then src.body.rows[i][n]
    else Missing
  }

  /** Every cell of the reset frame is the fetched index value or body cell under its label. */
  lemma ResetIndexFetched(src: Source)
    requires SourceOk(src) && ResetIndex(src).Ok?
    ensures var t := ResetIndex(src).value;
      && |t.rows| == |src.body.rows|
      && forall i, n :: 0 <= i < |t.rows| && n in t.columns ==> t.rows[i][n] == Fetched(src, i, n)
  {
    var t := ResetIndex(src).value;
    forall i, n | 0 <= i < |t.rows| && n in t.columns
      ensures t.rows[i][n] == Fetched(src, i, n)
    {
      if src.indexName != Some(n) {
        assert n in src.body.columns;
        assert RowOf(src.body.rows[i], src.body.columns);
      }
    }
  }

  // ---------------------------------------------------------------------
  // Selecting and relabelling columns
  // ---------------------------------------------------------------------

  /** The first of `names` that is not a column, if any. */
  function FirstAbsent(names: seq<string>, columns: seq<string>): (r: Option<string>)
    ensures r.None? <==> forall n :: n in names ==> n in columns
    ensures r.Some? ==> r.value in names && r.value !in columns
  {
    if names == [] then None
    else if names[0] !in columns then Some(names[0])
    else FirstAbsent(names[1..], columns)
  }

  /** The cells under `names`, placed under the matching `labels`. */
  function Project(row: Row, names: seq<string>, labels: seq<string>): (r: Row)
    requires |names| == |labels| && Distinct(labels)
    requires forall n :: n in names ==> n in row
    ensures RowOf(r, labels)
    ensures forall j :: 0 <= j < |labels| ==> r[labels[j]] == row[names[j]]
  {
    map j | 0 <= j < |labels| :: labels[j] := row[names[j]]
  }

  /**
   * `df[names]` followed by `df.columns = labels`: the columns under `names`,
   * in that order, relabelled by position; a name that is not a column raises
   * KeyError.
   */
  function SelectAs(t: Table, names: seq<string>, labels: seq<string>): (r: Result<Table, Error>)
    requires WellFormed(t) && |names| == |labels| && Distinct(labels)
    ensures r.Ok? <==> forall n :: n in names ==> n in t.columns
    ensures r.Err? ==> r.error.MissingColumn? && r.error.name in names && r.error.name !in t.columns
    ensures r.Ok? ==> WellFormed(r.value) && r.value.columns == labels && |r.value.rows| == |t.rows|
    ensures r.Ok? ==> forall i, j :: 0 <= i < |t.rows| && 0 <= j < |labels| ==>
      r.value.rows[i][labels[j]] == t.rows[i][names[j]]
  {
    match FirstAbsent(names, t.columns)
    case Some(n) => Err(MissingColumn(n))
    case None =>
      Ok(Table(labels, seq(|t.rows|, i requires 0 <= i < |t.rows| => Project(t.rows[i], names, labels))))
  }

  /** `df.rename(columns=...)`: each column takes the label at its position; a clash is an error. */
  function Relabel(t: Table, labels: seq<string>): (r: Result<Table, Error>)
    requires WellFormed(t) && |labels| == |t.columns|
    ensures r.Ok? <==> Distinct(labels)
    ensures r.Err? ==> r.error == DuplicateLabels
    ensures r.Ok? ==> WellFormed(r.value) && r.value.columns == labels && |r.value.rows| == |t.rows|
    ensures r.Ok? ==> forall i, j :: 0 <= i < |t.rows| && 0 <= j < |labels| ==>
      r.value.rows[i][labels[j]] == t.rows[i][t.columns[j]]
  {
    if !Distinct(labels) then Err(DuplicateLabels) else SelectAs(t, t.columns, labels)
  }

  /** The labels after `rename(columns={old: new})`. */
  function Renamed(columns: seq<string>, oldLabel: string, newLabel: string): (r: seq<string>)
    ensures |r| == |columns|
    ensures forall j :: 0 <= j < |r| ==> r[j] == if columns[j] == oldLabel then newLabel else columns[j]
  {
    seq(|columns|, j requires 0 <= j < |columns| => if columns[j] == oldLabel then newLabel else columns[j])
  }

  /** The labels after `rename(columns={c: str(c).strip() for c in df.columns})`. */
  function Stripped(columns: seq<string>): (r: seq<string>)
    ensures |r| == |columns|
    ensures forall j :: 0 <= j < |r| ==> r[j] == Strip(columns[j])
  {
    seq(|columns|, j requires 0 <= j < |columns| => Strip(columns[j]))
  }

  /** The first position of `name` among `labels`. */
  function IndexOf(labels: seq<string>, name: string): (i: nat)
    requires name in labels
    ensures i < |labels| && labels[i] == name && name !in labels[..i]
  {
    if labels[0] == name then 0
    else
      assert labels[1..][..IndexOf(labels[1..], name)] == labels[1..IndexOf(labels[1..], name) + 1];
      1 + IndexOf(labels[1..], name)
  }

  /** At most one column carries `name`. */
  predicate Unique(labels: seq<string>, name: string) {
    forall i, j :: 0 <= i < j < |labels| && labels[i] == name ==> labels[j] != name
  }

  /**
   * The position of the column labelled `name`, when exactly one is; selecting
   * a label that several columns carry yields more columns than asked for, and
   * relabelling them then fails.
   */
  function Locate(labels: seq<string>, name: string): (r: Result<nat, Error>)
    requires name in labels
    ensures r.Ok? ==> r.value < |labels| && labels[r.value] == name
    ensures r.Ok? <==> Unique(labels, name)
    ensures r.Err? ==> r.error == DuplicateLabels
  {
    var i := IndexOf(labels, name);
    if name in labels[i + 1..] then
      var j :| i + 1 <= j < |labels| && labels[j] == name;
      assert labels[j] == name;
      Err(DuplicateLabels)
    else
      assert forall j :: i < j < |labels| ==> labels[j] == labels[i + 1..][j - i - 1];
      Ok(i)
  }

  /** The positions of `names` among `labels`: an absent name fails first, then a repeated one. */
  function LocateAll(labels: seq<string>, names: seq<string>): (r: Result<seq<nat>, Error>)
    ensures r.Err? && (exists n :: n in names && n !in labels) ==> r.error.MissingColumn?
    ensures r.Err? ==> r.error.MissingColumn? || r.error == DuplicateLabels
    ensures r.Ok? ==> |r.value| == |names|
    ensures r.Ok? ==> forall k :: 0 <= k < |names| ==> r.value[k] < |labels| && labels[r.value[k]] == names[k]
    ensures r.Ok? <==> forall n :: n in names ==> n in labels && Unique(labels, n)
  {
    match FirstAbsent(names, labels)
    case Some(n) => Err(MissingColumn(n))
    case None => Positions(labels, names)
  }

  function Positions(labels: seq<string>, names: seq<string>): (r: Result<seq<nat>, Error>)
    requires forall n :: n in names ==> n in labels
    ensures r.Err? ==> r.error == DuplicateLabels
    ensures r.Ok? ==> |r.value| == |names|
    ensures r.Ok? ==> forall k :: 0 <= k < |names| ==> r.value[k] < |labels| && labels[r.value[k]] == names[k]
    ensures r.Ok? <==> forall n :: n in names ==> Unique(labels, n)
  {
    if names == [] then Ok([])
    else
      assert forall n :: n in names <==> n == names[0] || n in names[1..];
      var p :- Locate(labels, names[0]);
      var ps :- Positions(labels, names[1..]);
      Ok([p] + ps)
  }

  // ---------------------------------------------------------------------
  // Dates
  // ---------------------------------------------------------------------

  /** Strings pd.to_datetime reads as "no date" (NaT). */
  const NoDateStrings: set<string> := {"", "NaT", "nat", "NAT", "nan", "NaN", "NAN"}

  /**
   * A cell of a date column once parsed and formatted: missing, or a
   * `YYYY-MM-DD` date that pandas can hold as a Timestamp.
   */
  predicate IsDateKey(c: Cell) {
    c.Missing? || (c.Text? && IsIsoDate(c.text) && InTimestampRange(c.text))
  }

  /**
   * `pd.to_datetime(x).strftime("%Y-%m-%d")` on one cell, for cells already in
   * `YYYY-MM-DD` form: a date within the Timestamp range stays as it is, a
   * missing cell or a NaT string becomes missing, and anything else raises,
   * a calendar date outside the range included.
   */
  function ToDate(c: Cell): (r: Result<Cell, Error>)
    ensures r.Ok? ==> IsDateKey(r.value)
    ensures IsDateKey(c) ==> r == Ok(c)
    ensures c.Text? && c.text in NoDateStrings ==> r == Ok(Missing)
    ensures c.Num? ==> r.Err?
    ensures c.Text? && !IsIsoDate(c.text) && c.text !in NoDateStrings ==> r.Err?
    ensures c.Text? && IsIsoDate(c.text) && !InTimestampRange(c.text) ==> r.Err?
  {
    match c
    case Missing => Ok(Missing)
    case Num(_) => Err(BadDate(c))
    case Text(s) =>
      if IsIsoDate(s) && InTimestampRange(s) then Ok(c)
      else if s in NoDateStrings then Ok(Missing)
      else Err(BadDate(c))
  }

  /** The date column converted cell by cell; the first unreadable cell raises. */
  function ToDateRows(rows: seq<Row>, col: string): (r: Result<seq<Row>, Error>)
    requires HasColumn(rows, col)
    ensures r.Ok? <==> forall i :: 0 <= i < |rows| ==> ToDate(rows[i][col]).Ok?
    ensures r.Err? ==> r.error.BadDate?
    ensures r.Ok? ==> |r.value| == |rows|
    ensures r.Ok? ==> forall i :: 0 <= i < |rows| ==>
      r.value[i] == rows[i][col := ToDate(rows[i][col]).value]
  {
    if rows == [] then Ok([])
    else
      var c :- ToDate(rows[0][col]);
      var rest :- ToDateRows(rows[1..], col);
      Ok([rows[0][col := c]] + rest)
  }

  /** `df[col] = pd.to_datetime(df[col]).dt.strftime("%Y-%m-%d")`. */
  function ConvertDates(t: Table, col: string): (r: Result<Table, Error>)
    requires WellFormed(t) && col in t.columns
    ensures r.Ok? <==> forall i :: 0 <= i < |t.rows| ==> ToDate(t.rows[i][col]).Ok?
    ensures r.Err? ==> r.error.BadDate?
    ensures r.Ok? ==> WellFormed(r.value) && r.value.columns == t.columns && |r.value.rows| == |t.rows|
    ensures r.Ok? ==> forall i :: 0 <= i < |t.rows| ==>
      && IsDateKey(r.value.rows[i][col])
      && r.value.rows[i][col] == ToDate(t.rows[i][col]).value
      && (IsDateKey(t.rows[i][col]) ==> r.value.rows[i][col] == t.rows[i][col])
      && forall c :: c in t.rows[i] && c != col ==> r.value.rows[i][c] == t.rows[i][c]
  {
    var rows :- ToDateRows(t.rows, col);
    Ok(Table(t.columns, rows))
  }

  // ---------------------------------------------------------------------
  // dropna and drop_duplicates
  // ---------------------------------------------------------------------

  /** A row filter: a present cell under `col`, or the cell `k` under `col`. */
  datatype Test = NotMissing(col: string) | Equals(col: string, k: Cell)

  predicate Passes(x: Row, t: Test) {
    t.col in x && match t
      case NotMissing(_) => !x[t.col].Missing?
      case Equals(_, k) => x[t.col] == k
  }

  /** Every position one further on. */
  function Shift(ix: seq<nat>): (r: seq<nat>)
    ensures |r| == |ix| && forall j :: 0 <= j < |ix| ==> r[j] == ix[j] + 1
  {
    seq(|ix|, j requires 0 <= j < |ix| => ix[j] + 1)
  }

  /** The positions of the rows that pass `t`, in increasing order. */
  function Where(rows: seq<Row>, t: Test): (ix: seq<nat>)
    ensures |ix| <= |rows|
    ensures forall j :: 0 <= j < |ix| ==> ix[j] < |rows| && Passes(rows[ix[j]], t)
    ensures forall j, j' :: 0 <= j < j' < |ix| ==> ix[j] < ix[j']
  {
    if rows == [] then []
    else
      var rest := Shift(Where(rows[1..], t));
      if Passes(rows[0], t) then [0] + rest else rest
  }

  /** Every row that passes `t` has its position in `Where`. */
  lemma {:induction false} WhereComplete(rows: seq<Row>, t: Test, i: nat)
    requires i < |rows| && Passes(rows[i], t)
    ensures i in Where(rows, t)
  {
    if i > 0 {
      WhereComplete(rows[1..], t, i - 1);
      var inner := Where(rows[1..], t);
      var j :| 0 <= j < |inner| && inner[j] == i - 1;
      assert Shift(inner)[j] == i;
    }
  }

  /** Rows that pass `t` at the same positions have the same `Where`. */
  lemma {:induction false} WhereAlike(a: seq<Row>, b: seq<Row>, t: Test)
    requires |a| == |b| && forall i :: 0 <= i < |a| ==> (Passes(a[i], t) <==> Passes(b[i], t))
    ensures Where(a, t) == Where(b, t)
  {
    if a != [] {
      WhereAlike(a[1..], b[1..], t);
      assert Passes(a[0], t) == Passes(b[0], t);
    }
  }

  /** `df.dropna(subset=[col])`: the rows whose `col` cell is not missing, in order. */
  function DropMissing(rows: seq<Row>, col: string): (r: seq<Row>)
    requires HasColumn(rows, col)
    ensures HasColumn(r, col) && |r| <= |rows|
    ensures forall x: Row :: x in r <==> x in rows && !x[col].Missing?
  {
    if rows == [] then []
    else
      var rest := DropMissing(rows[1..], col);
      if rows[0][col].Missing? then rest else [rows[0]] + rest
  }

  /**
   * `dropna` keeps order and repetition: row j of the result is the row at
   * the j-th position whose `col` cell is present.
   */
  lemma {:induction false} DropMissingPositions(rows: seq<Row>, col: string)
    requires HasColumn(rows, col)
    ensures |DropMissing(rows, col)| == |Where(rows, NotMissing(col))|
    ensures forall j :: 0 <= j < |DropMissing(rows, col)| ==>
      DropMissing(rows, col)[j] == rows[Where(rows, NotMissing(col))[j]]
  {
    if rows != [] {
      DropMissingPositions(rows[1..], col);
      var tail, ix := DropMissing(rows[1..], col), Where(rows[1..], NotMissing(col));
      var r, p := ShiftPositions(rows, tail, ix, !rows[0][col].Missing?);
      assert DropMissing(rows, col) == r;
      assert Where(rows, NotMissing(col)) == p;
    }
  }

  /**
   * Positions into `s[1..]`, one further on, are positions into `s`; a kept
   * head comes first, at position 0.
   */
  lemma ShiftPositions<T>(s: seq<T>, rest: seq<T>, ix: seq<nat>, keep: bool) returns (r: seq<T>, p: seq<nat>)
    requires s != [] && |rest| == |ix|
    requires forall j :: 0 <= j < |ix| ==> ix[j] < |s| - 1 && rest[j] == s[1..][ix[j]]
    ensures r == (if keep then [s[0]] + rest else rest)
    ensures p == (if keep then [0] + Shift(ix) else Shift(ix))
    ensures |r| == |p| && forall j :: 0 <= j < |p| ==> p[j] < |s| && r[j] == s[p[j]]
  {
    r := if keep then [s[0]] + rest else rest;
    p := if keep then [0] + Shift(ix) else Shift(ix);
    forall j | 0 <= j < |p|
      ensures p[j] < |s| && r[j] == s[p[j]]
    {
      if keep && j > 0 {
        assert r[j] == rest[j - 1] && p[j] == ix[j - 1] + 1;
      }
    }
  }

  /** No row before row `i` has its `col` cell. */
  predicate IsFirst(rows: seq<Row>, col: string, i: nat)
    requires HasColumn(rows, col) && i < |rows|
  {
    forall j :: 0 <= j < i ==> rows[j][col] != rows[i][col]
  }

  /** Rows that agree on the key column have the same keys. */
  lemma SameKeyColumn(a: seq<Row>, b: seq<Row>, col: string)
    requires HasColumn(a, col) && HasColumn(b, col) && |a| == |b|
    requires forall j :: 0 <= j < |a| ==> a[j][col] == b[j][col]
    ensures Keys(a, col) == Keys(b, col)
  {
  }

  /** Whether a row is the first of its key depends only on the key column. */
  lemma FirstAlongside(a: seq<Row>, b: seq<Row>, col: string, i: nat)
    requires HasColumn(a, col) && HasColumn(b, col) && |a| == |b| && i < |a|
    requires forall j :: 0 <= j < |a| ==> a[j][col] == b[j][col]
    ensures IsFirst(a, col, i) <==> IsFirst(b, col, i)
  {
  }

  /**
   * `df.drop_duplicates(col)` (keep="first"): a row is kept exactly when no
   * earlier row has the same `col` cell; order is kept.
   */
  function DropDuplicates(rows: seq<Row>, col: string): (r: seq<Row>)
    requires HasColumn(rows, col)
    ensures HasColumn(r, col) && |r| <= |rows|
    ensures forall x :: x in r ==> x in rows
  {
    if rows == [] then []
    else
      var front := rows[..|rows| - 1];
      var last := rows[|rows| - 1];
      var kept := DropDuplicates(front, col);
      assert forall x :: x in front ==> x in rows;
      if last[col] in Keys(front, col) then kept else kept + [last]
  }

  /** The kept rows stand in their input order: they sit at increasing input positions. */
  lemma {:induction false} DropDuplicatesOrder(rows: seq<Row>, col: string) returns (ix: seq<nat>)
    requires HasColumn(rows, col)
    ensures |ix| == |DropDuplicates(rows, col)|
    ensures forall j :: 0 <= j < |ix| ==> ix[j] < |rows| && DropDuplicates(rows, col)[j] == rows[ix[j]]
    ensures forall j, j' :: 0 <= j < j' < |ix| ==> ix[j] < ix[j']
  {
    if rows == [] {
      ix := [];
    } else {
      var front := rows[..|rows| - 1];
      var last := rows[|rows| - 1];
      var inner := DropDuplicatesOrder(front, col);
      assert forall j :: 0 <= j < |inner| ==> rows[inner[j]] == front[inner[j]];
      if last[col] in Keys(front, col) {
        ix := inner;
      } else {
        ix := inner + [|rows| - 1];
      }
    }
  }

  /** After drop_duplicates the dates are unique, and every date of the input is still there. */
  lemma {:induction false} DropDuplicatesKeys(rows: seq<Row>, col: string)
    requires HasColumn(rows, col)
    ensures DistinctKeys(DropDuplicates(rows, col), col)
    ensures forall k :: k in Keys(DropDuplicates(rows, col), col) <==> k in Keys(rows, col)
  {
    if rows != [] {
      var front := rows[..|rows| - 1];
      var last := rows[|rows| - 1];
      DropDuplicatesKeys(front, col);
      var kept := DropDuplicates(front, col);
      assert Keys(rows, col) == Keys(front, col) + [last[col]];
      if last[col] !in Keys(front, col) {
        assert Keys(kept + [last], col) == Keys(kept, col) + [last[col]];
      }
    }
  }

  /** Every row that is the first of its date is kept. */
  lemma {:induction false} DropDuplicatesKeepsFirst(rows: seq<Row>, col: string, i: nat)
    requires HasColumn(rows, col) && i < |rows| && IsFirst(rows, col, i)
    ensures rows[i] in DropDuplicates(rows, col)
  {
    var front := rows[..|rows| - 1];
    var last := rows[|rows| - 1];
    if i < |rows| - 1 {
      assert IsFirst(front, col, i);
      DropDuplicatesKeepsFirst(front, col, i);
    } else {
      assert last[col] !in Keys(front, col);
    }
  }

  /** Every row kept is the first of its date. */
  lemma {:induction false} DropDuplicatesOnlyFirst(rows: seq<Row>, col: string, x: Row)
    requires HasColumn(rows, col) && x in DropDuplicates(rows, col)
    ensures exists i :: 0 <= i < |rows| && IsFirst(rows, col, i) && rows[i] == x
  {
    var front := rows[..|rows| - 1];
    var last := rows[|rows| - 1];
    if x in DropDuplicates(front, col) {
      DropDuplicatesOnlyFirst(front, col, x);
      var i :| 0 <= i < |front| && IsFirst(front, col, i) && front[i] == x;
      assert IsFirst(rows, col, i);
    } else {
      assert x == last && last[col] !in Keys(front, col);
      assert IsFirst(rows, col, |rows| - 1);
    }
  }
}
