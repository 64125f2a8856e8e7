/**
 * The table `main` builds (src/run_market_ohlcv.py, lines 58-108): the daily
 * price table, the short-selling volume and balance tables, their left merge
 * on the date, the zero fill, and the newest-first sort. The three provider
 * calls are inputs; writing the CSV and printing are not modelled.
 */
module Pipeline {
  import opened Wrappers
  import opened Cells
  import opened Dates
  import opened Frames
  import opened Steps
  import opened Sorting
  import opened Merging
  import opened Combining

  const DateLabel: string := "일자"
  const ProviderDateLabel: string := "날짜"
  const TradingValue: string := "거래대금"
  const Ratio: string := "비중"
  const ShortVolume: string := "공매도"
  const ShortVolumeRatio: string := "공매도비중"
  const ShortBalance: string := "공매도잔고"
  const ShortBalanceRatio: string := "공매도잔고비중"

  /** The price columns coerced to numbers (line 65). */
  const PriceNumeric: seq<string> := ["시가", "고가", "저가", "종가", "거래량", TradingValue, "등락률"]
  /** The price columns kept, when present (line 66); the traded value is not among them. */
  const PriceColumns: seq<string> := [DateLabel, "시가", "고가", "저가", "종가", "거래량", "등락률"]
  /** The labels of the short-volume table (lines 78 and 82). */
  const VolumeColumns: seq<string> := [DateLabel, ShortVolume, ShortVolumeRatio]
  /** The labels of the short-balance table (lines 93 and 97). */
  const BalanceColumns: seq<string> := [DateLabel, ShortBalance, ShortBalanceRatio]
  /** The columns the fill loop sets to 0 where missing (line 103). */
  const ShortColumns: seq<string> := [ShortVolume, ShortVolumeRatio, ShortBalance, ShortBalanceRatio]

  lemma LabelFacts()
    ensures Distinct(PriceColumns) && Distinct(VolumeColumns) && Distinct(BalanceColumns)
    ensures TradingValue !in PriceColumns && DateLabel !in PriceNumeric
    ensures Distinct(ShortColumns) && DateLabel !in ShortColumns
    ensures forall c :: c in ShortColumns ==> c !in PriceColumns
    ensures Without(VolumeColumns, DateLabel) == [ShortVolume, ShortVolumeRatio]
    ensures Without(BalanceColumns, DateLabel) == [ShortBalance, ShortBalanceRatio]
  {
    WithoutOthers(ShortVolume, ShortVolumeRatio);
    WithoutOthers(ShortBalance, ShortBalanceRatio);
  }

  lemma WithoutOthers(a: string, b: string)
    requires a != DateLabel && b != DateLabel
    ensures Without([DateLabel, a, b], DateLabel) == [a, b]
  {
    var s := [DateLabel, a, b];
    assert s[1..] == [a, b] && s[1..][1..] == [b] && s[1..][1..][1..] == [];
    assert Without([b], DateLabel) == [b] + Without([], DateLabel);
  }

  // ---------------------------------------------------------------------
  // The price table (lines 60-67)
  // ---------------------------------------------------------------------

  /** The labels of `wanted` that are among `columns`, in the order of `wanted`. */
  function Present(wanted: seq<string>, columns: seq<string>): (r: seq<string>)
    ensures forall c :: c in r <==> c in wanted && c in columns
    ensures Distinct(wanted) ==> Distinct(r)
    ensures wanted != [] && wanted[0] in columns ==> r != [] && r[0] == wanted[0]
  {
    if wanted == [] then []
    else
      var rest := Present(wanted[1..], columns);
      assert forall c :: c in wanted <==> c == wanted[0] || c in wanted[1..];
      if wanted[0] in columns then
        assert Distinct(wanted) ==> wanted[0] !in wanted[1..];
        [wanted[0]] + rest
      else rest
  }

  /** The selected labels keep the order they have in `wanted`. */
  lemma {:induction false} PresentOrder(wanted: seq<string>, columns: seq<string>)
    requires Distinct(wanted)
    ensures forall i, j :: 0 <= i < j < |Present(wanted, columns)| ==>
      IndexOf(wanted, Present(wanted, columns)[i]) < IndexOf(wanted, Present(wanted, columns)[j])
  {
    if wanted != [] {
      var tail := wanted[1..];
      DistinctTail(wanted);
      PresentOrder(tail, columns);
      var r, rest := Present(wanted, columns), Present(tail, columns);
      if wanted[0] in columns {
        forall i, j | 0 <= i < j < |r|
          ensures IndexOf(wanted, r[i]) < IndexOf(wanted, r[j])
        {
          assert r[j] == rest[j - 1];
          IndexOfTail(wanted, rest[j - 1]);
          if i > 0 {
            assert r[i] == rest[i - 1];
            IndexOfTail(wanted, rest[i - 1]);
          }
        }
      } else {
        forall i, j | 0 <= i < j < |r|
          ensures IndexOf(wanted, r[i]) < IndexOf(wanted, r[j])
        {
          IndexOfTail(wanted, rest[i]);
          IndexOfTail(wanted, rest[j]);
        }
      }
    }
  }

  lemma DistinctTail(s: seq<string>)
    requires Distinct(s) && s != []
    ensures Distinct(s[1..]) && s[0] !in s[1..]
  {
    var tail := s[1..];
    forall i, j | 0 <= i < j < |tail|
      ensures tail[i] != tail[j]
    {
      assert tail[i] == s[i + 1] && tail[j] == s[j + 1];
    }
  }

  /** Past the first label, positions in `s` are one more than positions in its tail. */
  lemma IndexOfTail(s: seq<string>, c: string)
    requires s != [] && c in s[1..] && c != s[0]
    ensures IndexOf(s, c) == 1 + IndexOf(s[1..], c)
  {
  }

  /** When every wanted label is a column, the selection is the wanted list itself. */
  lemma {:induction false} PresentAll(wanted: seq<string>, columns: seq<string>)
    requires forall c :: c in wanted ==> c in columns
    ensures Present(wanted, columns) == wanted
  {
    if wanted != [] {
      PresentAll(wanted[1..], columns);
    }
  }

  /** Lines 61-64: reset the index, relabel 날짜 as 일자, and parse the dates. */
  function LoadPrice(src: Source): (r: Result<Table, Error>)
    requires SourceOk(src)
    ensures r.Ok? ==> WellFormed(r.value) && DateLabel in r.value.columns
    ensures r.Ok? ==> forall i :: 0 <= i < |r.value.rows| ==> IsDateKey(r.value.rows[i][DateLabel])
    ensures r.Err? ==> r.error == DuplicateLabels || r.error == MissingColumn(DateLabel) || r.error.BadDate?
  {
    var t0 :- ResetIndex(src);
    var t1 :- Relabel(t0, Renamed(t0.columns, ProviderDateLabel, DateLabel));
    if DateLabel !in t1.columns then Err(MissingColumn(DateLabel))
    else ConvertDates(t1, DateLabel)
  }

  /**
   * When lines 61-64 go through: the index resets without a clash, the
   * relabelled columns are distinct and include 일자, and every fetched cell
   * of the column relabelled 일자 reads as a date.
   */
  ghost predicate PriceLoads(src: Source)
    requires SourceOk(src)
  {
    && ResetIndex(src).Ok?
    && var t0 := ResetIndex(src).value;
       var labels := Renamed(t0.columns, ProviderDateLabel, DateLabel);
       && Distinct(labels) && DateLabel in labels
       && forall j :: 0 <= j < |labels| && labels[j] == DateLabel ==> DatesReadable(src, t0.columns[j])
  }

  /** The price frame loads exactly under `PriceLoads`. */
  lemma LoadPriceSucceeds(src: Source)
    requires SourceOk(src)
    ensures LoadPrice(src).Ok? <==> PriceLoads(src)
  {
    if ResetIndex(src).Ok? {
      var t0 := ResetIndex(src).value;
      var labels := Renamed(t0.columns, ProviderDateLabel, DateLabel);
      if Distinct(labels) && DateLabel in labels {
        var j :| 0 <= j < |labels| && labels[j] == DateLabel;
        RelabelledDates(src, labels, j);
        assert forall k :: 0 <= k < |labels| && labels[k] == DateLabel ==> k == j;
      }
    }
  }

  /** After the relabelling, the 일자 cells are the fetched cells of the column relabelled 일자. */
  lemma RelabelledDates(src: Source, labels: seq<string>, j: nat)
    requires SourceOk(src) && ResetIndex(src).Ok?
    requires labels == Renamed(ResetIndex(src).value.columns, ProviderDateLabel, DateLabel)
    requires Distinct(labels) && j < |labels| && labels[j] == DateLabel
    ensures Relabel(ResetIndex(src).value, labels).Ok?
    ensures var t1 := Relabel(ResetIndex(src).value, labels).value;
      && WellFormed(t1) && t1.columns == labels && |t1.rows| == |src.body.rows|
      && (ConvertDates(t1, DateLabel).Ok? <==> DatesReadable(src, ResetIndex(src).value.columns[j]))
  {
    ResetIndexFetched(src);
    var t0 := ResetIndex(src).value;
    var t1 := Relabel(t0, labels).value;
    forall i | 0 <= i < |t1.rows|
      ensures t1.rows[i][DateLabel] == Fetched(src, i, t0.columns[j])
    {
      assert t1.rows[i][labels[j]] == t0.rows[i][t0.columns[j]];
      assert t0.columns[j] in t0.columns;
    }
  }

  /**
   * Lines 61-64 cell by cell: the loaded table has one row per fetched row and
   * the reset frame's columns with 날짜 relabelled 일자; under 일자 is the parsed
   * date of the fetched cell, under every other label the fetched cell itself.
   */
  lemma LoadPriceCells(src: Source)
    requires SourceOk(src) && LoadPrice(src).Ok?
    ensures ResetIndex(src).Ok?
    ensures var t0 := ResetIndex(src).value;
      var labels := Renamed(t0.columns, ProviderDateLabel, DateLabel);
      var t := LoadPrice(src).value;
      && t.columns == labels && |t.rows| == |src.body.rows|
      && forall i, j :: 0 <= i < |t.rows| && 0 <= j < |labels| ==>
           if labels[j] == DateLabel then ToDate(Fetched(src, i, t0.columns[j])) == Ok(t.rows[i][labels[j]])
           else t.rows[i][labels[j]] == Fetched(src, i, t0.columns[j])
  {
    ResetIndexFetched(src);
    var t0 := ResetIndex(src).value;
    var labels := Renamed(t0.columns, ProviderDateLabel, DateLabel);
    var t1 := Relabel(t0, labels).value;
    var t := LoadPrice(src).value;
    forall i, j | 0 <= i < |t.rows| && 0 <= j < |labels|
      ensures if labels[j] == DateLabel then ToDate(Fetched(src, i, t0.columns[j])) == Ok(t.rows[i][labels[j]])
        else t.rows[i][labels[j]] == Fetched(src, i, t0.columns[j])
    {
      assert t1.rows[i][labels[j]] == Fetched(src, i, t0.columns[j]);
      assert labels[j] in t1.rows[i];
    }
  }

  /** Line 66: the kept price columns of `t`, in the listed order. */
  function BaseColumns(t: Table): (r: seq<string>)
    requires DateLabel in t.columns
    ensures Distinct(r) && r != [] && r[0] == DateLabel
    ensures forall c :: c in r <==> c in PriceColumns && c in t.columns
  {
    LabelFacts();
    Present(PriceColumns, t.columns)
  }

  /** `ohlcv[base_cols]` (line 67) as rows: each row cut down to the kept columns. */
  function BaseRows(t: Table): (r: seq<Row>)
    requires WellFormed(t) && DateLabel in t.columns
    ensures |r| == |t.rows| && HasColumn(r, DateLabel)
    ensures forall i :: 0 <= i < |t.rows| ==> r[i] == Project(t.rows[i], BaseColumns(t), BaseColumns(t))
    ensures forall i :: 0 <= i < |t.rows| ==> r[i][DateLabel] == t.rows[i][DateLabel]
    ensures forall x :: x in r ==> RowOf(x, BaseColumns(t))
  {
    var base := BaseColumns(t);
    assert forall i :: 0 <= i < |t.rows| ==> forall n :: n in base ==> n in t.rows[i];
    seq(|t.rows|, i requires 0 <= i < |t.rows| => Project(t.rows[i], base, base))
  }

  /** Line 67: keep the listed columns, drop later rows of a repeated date, sort oldest first. */
  function FinishPrice(t: Table): (r: Table)
    requires WellFormed(t) && DateLabel in t.columns
    ensures r.columns != [] && r.columns[0] == DateLabel
    ensures forall c :: c in r.columns <==> c in PriceColumns && c in t.columns
    ensures |r.rows| <= |t.rows|
  {
    var base := BaseColumns(t);
    var rows := BaseRows(t);
    assert HasColumn(rows, DateLabel);
    Table(base, SortRows(DropDuplicates(rows, DateLabel), DateLabel, false))
  }

  /** Lines 60-67 on the fetched price frame. */
  function ShapePrice(src: Source): (r: Result<Table, Error>)
    requires SourceOk(src)
    ensures r.Ok? <==> LoadPrice(src).Ok?
    ensures r.Err? ==> r.error == LoadPrice(src).error
    ensures r.Ok? ==> PriceShaped(r.value)
  {
    match LoadPrice(src)
    case Err(e) => Err(e)
    case Ok(t) =>
      LabelFacts();
      NormalizedKeeps(t, PriceNumeric, DateLabel);
      var n := Normalized(t, PriceNumeric);
      FinishPriceWellFormed(n);
      FinishPriceDates(n);
      Ok(FinishPrice(n))
  }

  /** What the price table satisfies once shaped. */
  ghost predicate PriceShaped(p: Table) {
    && WellFormed(p)
    && p.columns != [] && p.columns[0] == DateLabel
    && (forall c :: c in p.columns ==> c in PriceColumns)
    && HasColumn(p.rows, DateLabel)
    && DateKeys(p.rows, DateLabel)
    && DistinctKeys(p.rows, DateLabel)
    && SortedBy(p.rows, DateLabel, false)
  }

  /** The shaped price table has only listed columns, date first, and every row has each of them. */
  lemma FinishPriceWellFormed(t: Table)
    requires WellFormed(t) && DateLabel in t.columns
    ensures WellFormed(FinishPrice(t))
    ensures FinishPrice(t).columns != [] && FinishPrice(t).columns[0] == DateLabel
    ensures forall c :: c in FinishPrice(t).columns ==> c in PriceColumns
  {
    var base := BaseColumns(t);
    var rows := BaseRows(t);
    var kept := DropDuplicates(rows, DateLabel);
    var sorted := SortRows(kept, DateLabel, false);
    forall x | x in sorted
      ensures RowOf(x, base)
    {
      assert x in multiset(kept);
      assert x in rows;
    }
    WellFormedByMembers(base, sorted);
  }

  /**
   * The shaped price table's dates are parsed, unique and ascending, and are
   * exactly the dates of the frame it was built from.
   */
  lemma FinishPriceDates(t: Table)
    requires WellFormed(t) && DateLabel in t.columns
    requires forall i :: 0 <= i < |t.rows| ==> IsDateKey(t.rows[i][DateLabel])
    ensures HasColumn(FinishPrice(t).rows, DateLabel) && HasColumn(t.rows, DateLabel)
    ensures DateKeys(FinishPrice(t).rows, DateLabel)
    ensures DistinctKeys(FinishPrice(t).rows, DateLabel)
    ensures SortedBy(FinishPrice(t).rows, DateLabel, false)
    ensures forall k :: k in Keys(FinishPrice(t).rows, DateLabel) <==> k in Keys(t.rows, DateLabel)
  {
    var rows := BaseRows(t);
    assert DateKeys(rows, DateLabel);
    var kept := DropDuplicates(rows, DateLabel);
    DropDuplicatesKeys(rows, DateLabel);
    assert DateKeys(kept, DateLabel);
    SortRowsSorted(kept, DateLabel, false);
    SortRowsDistinct(kept, DateLabel, false);
    WellFormedHasColumn(t, DateLabel);
    SameKeyColumn(rows, t.rows, DateLabel);
  }

  /** Each row of the shaped price table is the first row of its date, cut down to the kept columns. */
  lemma FinishPriceKeepsFirst(t: Table, x: Row)
    requires WellFormed(t) && DateLabel in t.columns
    requires x in FinishPrice(t).rows
    ensures HasColumn(t.rows, DateLabel)
    ensures exists i ::
      && 0 <= i < |t.rows| && IsFirst(t.rows, DateLabel, i)
      && x == Project(t.rows[i], BaseColumns(t), BaseColumns(t))
  {
    WellFormedHasColumn(t, DateLabel);
    var rows := BaseRows(t);
    var kept := DropDuplicates(rows, DateLabel);
    assert x in multiset(kept);
    DropDuplicatesOnlyFirst(rows, DateLabel, x);
    var i :| 0 <= i < |rows| && IsFirst(rows, DateLabel, i) && rows[i] == x;
    FirstAlongside(rows, t.rows, DateLabel, i);
  }

  /** ...and the first row of every date is there. */
  lemma FinishPriceHasFirst(t: Table, i: nat)
    requires WellFormed(t) && DateLabel in t.columns && i < |t.rows|
    requires HasColumn(t.rows, DateLabel) && IsFirst(t.rows, DateLabel, i)
    ensures Project(t.rows[i], BaseColumns(t), BaseColumns(t)) in FinishPrice(t).rows
  {
    var rows := BaseRows(t);
    FirstAlongside(rows, t.rows, DateLabel, i);
    DropDuplicatesKeepsFirst(rows, DateLabel, i);
    var kept := DropDuplicates(rows, DateLabel);
    assert rows[i] in multiset(kept);
  }

  // ---------------------------------------------------------------------
  // The short-selling tables (lines 71-97)
  // ---------------------------------------------------------------------

  /** Line 76: 날짜 when the frame has it, else its first column. */
  function DateColumn(labels: seq<string>): (r: string)
    requires labels != []
    ensures r in labels
    ensures ProviderDateLabel in labels ==> r == ProviderDateLabel
    ensures ProviderDateLabel !in labels ==> r == labels[0]
  {
    if ProviderDateLabel in labels then ProviderDateLabel else labels[0]
  }

  /**
   * Lines 73-79 (and 88-94): reset the index, strip the labels, select the
   * date column, `value` and 비중, relabel them `labels`, and parse the dates.
   * Loading fails exactly when one of these steps raises; otherwise row i
   * holds the parsed date and the two cells fetched in row i.
   */
  function LoadShort(src: Source, value: string, labels: seq<string>): (r: Result<Table, Error>)
    requires SourceOk(src) && !IsEmpty(src)
    requires |labels| == 3 && Distinct(labels) && labels[0] == DateLabel
    ensures r.Ok? ==> WellFormed(r.value) && r.value.columns == labels && |r.value.rows| == |src.body.rows|
    ensures r.Ok? ==> forall i :: 0 <= i < |r.value.rows| ==> IsDateKey(r.value.rows[i][DateLabel])
    ensures ResetIndex(src).Ok? ==> ResetIndex(src).value.columns != []
    ensures r.Ok? <==>
      && ResetIndex(src).Ok?
      && ShortSourceColumns(ResetIndex(src).value.columns, value).Ok?
      && DatesReadable(src, ShortSourceColumns(ResetIndex(src).value.columns, value).value[0])
    ensures r.Ok? ==> HoldsFetched(src, ShortSourceColumns(ResetIndex(src).value.columns, value).value, labels, r.value)
  {
    var t :- ResetIndex(src);
    var names :- ShortSourceColumns(t.columns, value);
    SelectedCells(src, t, names, labels);
    var s := SelectAs(t, names, labels).value;
    ConvertedCells(src, s, names, labels);
    ConvertDates(s, DateLabel)
  }

  /** Every fetched cell under `n` is one `pd.to_datetime` can read. */
  ghost predicate DatesReadable(src: Source, n: string)
    requires SourceOk(src)
  {
    forall i :: 0 <= i < |src.body.rows| ==> ToDate(Fetched(src, i, n)).Ok?
  }

  /**
   * Row i of a loaded short table holds the parsed date of the fetched cell
   * under `names[0]` and the fetched cells under `names[1]` and `names[2]`.
   */
  ghost predicate HoldsFetched(src: Source, names: seq<string>, labels: seq<string>, t: Table)
    requires SourceOk(src) && |names| == 3 && |labels| == 3 && labels[0] == DateLabel
    requires WellFormed(t) && t.columns == labels && |t.rows| == |src.body.rows|
  {
    forall i :: 0 <= i < |t.rows| ==>
      && ToDate(Fetched(src, i, names[0])) == Ok(t.rows[i][DateLabel])
      && t.rows[i][labels[1]] == Fetched(src, i, names[1])
      && t.rows[i][labels[2]] == Fetched(src, i, names[2])
  }

  /** Parsing the dates of the selected columns keeps the fetched cells, the dates parsed. */
  lemma ConvertedCells(src: Source, s: Table, names: seq<string>, labels: seq<string>)
    requires SourceOk(src) && |names| == 3 && |labels| == 3 && Distinct(labels) && labels[0] == DateLabel
    requires WellFormed(s) && s.columns == labels && |s.rows| == |src.body.rows|
    requires forall i, k :: 0 <= i < |s.rows| && 0 <= k < 3 ==> s.rows[i][labels[k]] == Fetched(src, i, names[k])
    ensures ConvertDates(s, DateLabel).Ok? <==> DatesReadable(src, names[0])
    ensures ConvertDates(s, DateLabel).Ok? ==> HoldsFetched(src, names, labels, ConvertDates(s, DateLabel).value)
  {
    assert forall i :: 0 <= i < |s.rows| ==> s.rows[i][DateLabel] == Fetched(src, i, names[0]);
    if ConvertDates(s, DateLabel).Ok? {
      var t := ConvertDates(s, DateLabel).value;
      forall i | 0 <= i < |t.rows|
        ensures t.rows[i][labels[1]] == Fetched(src, i, names[1])
        ensures t.rows[i][labels[2]] == Fetched(src, i, names[2])
      {
        assert labels[1] in s.rows[i] && labels[1] != DateLabel;
        assert labels[2] in s.rows[i] && labels[2] != DateLabel;
      }
    }
  }

  /** The selected and relabelled columns of the reset frame hold the fetched cells. */
  lemma SelectedCells(src: Source, t0: Table, names: seq<string>, labels: seq<string>)
    requires SourceOk(src) && ResetIndex(src) == Ok(t0)
    requires |names| == 3 && forall k :: 0 <= k < 3 ==> names[k] in t0.columns
    requires |labels| == 3 && Distinct(labels)
    ensures SelectAs(t0, names, labels).Ok?
    ensures var s := SelectAs(t0, names, labels).value;
      && |s.rows| == |src.body.rows|
      && forall i, k :: 0 <= i < |s.rows| && 0 <= k < 3 ==> s.rows[i][labels[k]] == Fetched(src, i, names[k])
  {
    ResetIndexFetched(src);
  }

  /** The labels lines 75-77 look up once the labels are stripped: the date column, `value` and 비중. */
  function ShortWanted(stripped: seq<string>, value: string): seq<string>
    requires stripped != []
  {
    [DateColumn(stripped), value, Ratio]
  }

  /**
   * Lines 75-77: the columns `sv[[date_col, value, "비중"]]` selects, by their
   * original labels: each is the one column whose stripped label is the one
   * wanted. A wanted label no column has raises KeyError; one that several
   * columns share selects too many columns, and relabelling them fails.
   */
  function ShortSourceColumns(columns: seq<string>, value: string): (r: Result<seq<string>, Error>)
    requires columns != []
    ensures r.Ok? <==> forall n :: n in ShortWanted(Stripped(columns), value) ==>
      n in Stripped(columns) && Unique(Stripped(columns), n)
    ensures r.Err? ==> r.error.MissingColumn? || r.error == DuplicateLabels
    ensures r.Ok? ==> |r.value| == 3 && forall k :: 0 <= k < 3 ==>
      r.value[k] in columns && Strip(r.value[k]) == ShortWanted(Stripped(columns), value)[k]
  {
    var stripped := Stripped(columns);
    var at :- LocateAll(stripped, ShortWanted(stripped, value));
    var names := Picked(columns, at);
    assert forall k :: 0 <= k < 3 ==> Strip(names[k]) == stripped[at[k]];
    Ok(names)
  }

  /** The labels at the given positions. */
  function Picked(columns: seq<string>, at: seq<nat>): (r: seq<string>)
    requires forall k :: 0 <= k < |at| ==> at[k] < |columns|
    ensures |r| == |at| && forall k :: 0 <= k < |at| ==> r[k] == columns[at[k]]
  {
    seq(|at|, k requires 0 <= k < |at| => columns[at[k]])
  }

  /**
   * Lines 72-83 (and 87-97): a missing or empty provider frame gives an empty
   * table with the three labels; otherwise the loaded table, its value
   * columns coerced, without rows whose date is missing.
   */
  function ShapeShort(src: Option<Source>, value: string, labels: seq<string>): (r: Result<Table, Error>)
    requires src.Some? ==> SourceOk(src.value)
    requires |labels| == 3 && Distinct(labels) && labels[0] == DateLabel
    ensures src.None? || IsEmpty(src.value) ==> r == Ok(Table(labels, []))
    ensures src.Some? && !IsEmpty(src.value) ==> (r.Ok? <==> LoadShort(src.value, value, labels).Ok?)
    ensures r.Err? ==> src.Some? && !IsEmpty(src.value) && LoadShort(src.value, value, labels) == Err(r.error)
    ensures r.Ok? ==> ShortShaped(r.value, labels)
  {
    if src.None? || IsEmpty(src.value) then Ok(Table(labels, []))
    else
      match LoadShort(src.value, value, labels)
      case Err(e) => Err(e)
      case Ok(t) => Ok(CleanShort(t, labels))
  }

  /** Line 80 (and 95): coerce the two value columns, then drop rows without a date. */
  function CleanShort(t: Table, labels: seq<string>): (r: Table)
    requires WellFormed(t) && t.columns == labels
    requires |labels| == 3 && Distinct(labels) && labels[0] == DateLabel
    requires forall i :: 0 <= i < |t.rows| ==> IsDateKey(t.rows[i][DateLabel])
    ensures ShortShaped(r, labels)
  {
    assert DateLabel !in labels[1..];
    NormalizedKeeps(t, labels[1..], DateLabel);
    var n := Normalized(t, labels[1..]);
    var rows := DropMissing(n.rows, DateLabel);
    forall x | x in rows
      ensures RowOf(x, labels) && IsDateKey(x[DateLabel])
    {
      var i :| 0 <= i < |n.rows| && n.rows[i] == x;
    }
    WellFormedByMembers(labels, rows);
    Table(labels, rows)
  }

  /**
   * Line 80 (and 95) row by row: the cleaned table holds, in order, the rows
   * whose date is present, with both value columns coerced by `_to_num` and
   * the date unchanged.
   */
  lemma CleanShortRows(t: Table, labels: seq<string>)
    requires WellFormed(t) && t.columns == labels
    requires |labels| == 3 && Distinct(labels) && labels[0] == DateLabel
    requires forall i :: 0 <= i < |t.rows| ==> IsDateKey(t.rows[i][DateLabel])
    ensures var ix := Where(t.rows, NotMissing(DateLabel));
      var r := CleanShort(t, labels);
      && |r.rows| == |ix|
      && forall j :: 0 <= j < |ix| ==>
           && r.rows[j][DateLabel] == t.rows[ix[j]][DateLabel]
           && r.rows[j][labels[1]] == ToNum(t.rows[ix[j]][labels[1]])
           && r.rows[j][labels[2]] == ToNum(t.rows[ix[j]][labels[2]])
  {
    var cols := labels[1..];
    assert DateLabel !in cols && labels[1] in cols && labels[2] in cols;
    NormalizedCells(t, cols);
    var n := Normalized(t, cols);
    DropMissingPositions(n.rows, DateLabel);
    WhereAlike(n.rows, t.rows, NotMissing(DateLabel));
  }

  /** Lines 71-83: the short-selling volume table `sv`. */
  function VolumeTable(sv: Option<Source>): (r: Result<Table, Error>)
    requires sv.Some? ==> SourceOk(sv.value)
    ensures r.Ok? ==> ShortShaped(r.value, VolumeColumns)
  {
    LabelFacts();
    ShapeShort(sv, ShortVolume, VolumeColumns)
  }

  /** Lines 86-97: the short-selling balance table `sb`. */
  function BalanceTable(sb: Option<Source>): (r: Result<Table, Error>)
    requires sb.Some? ==> SourceOk(sb.value)
    ensures r.Ok? ==> ShortShaped(r.value, BalanceColumns)
  {
    LabelFacts();
    ShapeShort(sb, ShortBalance, BalanceColumns)
  }

  /** What a short-selling table satisfies once shaped: no row without a date. */
  ghost predicate ShortShaped(t: Table, labels: seq<string>) {
    && WellFormed(t) && t.columns == labels
    && HasColumn(t.rows, DateLabel)
    && DateKeys(t.rows, DateLabel)
    && forall x: Row :: x in t.rows ==> x[DateLabel].Text?
  }

  // ---------------------------------------------------------------------
  // Merge, fill and sort (lines 99-108)
  // ---------------------------------------------------------------------

  /** The labels the two merges add are the four short-selling columns; the short tables share only the date. */
  lemma ShortLabels()
    ensures Without(VolumeColumns, DateLabel) + Without(BalanceColumns, DateLabel) == ShortColumns
    ensures DateLabel !in ShortColumns
    ensures forall c :: c in VolumeColumns && c != DateLabel ==> c in ShortColumns
    ensures forall c :: c in BalanceColumns && c != DateLabel ==> c in ShortColumns && c !in VolumeColumns
  {
    WithoutOthers(ShortVolume, ShortVolumeRatio);
    WithoutOthers(ShortBalance, ShortBalanceRatio);
  }

  /** The shaped tables can always be merged, and the merges add exactly the four short-selling columns. */
  lemma ShapedJoinable(p: Table, v: Table, b: Table)
    requires PriceShaped(p) && ShortShaped(v, VolumeColumns) && ShortShaped(b, BalanceColumns)
    ensures Chainable(p, v, b, DateLabel)
    ensures Added(v, b, DateLabel) == ShortColumns
  {
    LabelFacts();
    ShortLabels();
  }

  /**
   * The table `main` writes, from the three fetched frames (lines 60-108);
   * the first step that raises gives the error.
   */
  function MarketTable(price: Source, sv: Option<Source>, sb: Option<Source>): (r: Result<Table, Error>)
    requires SourceOk(price) && (sv.Some? ==> SourceOk(sv.value)) && (sb.Some? ==> SourceOk(sb.value))
    ensures r.Ok? <==>
      && ShapePrice(price).Ok?
      && VolumeTable(sv).Ok?
      && BalanceTable(sb).Ok?
    ensures ShapePrice(price).Err? ==> r == Err(ShapePrice(price).error)
    ensures ShapePrice(price).Ok? && VolumeTable(sv).Err? ==>
      r == Err(VolumeTable(sv).error)
    ensures ShapePrice(price).Ok? && VolumeTable(sv).Ok? && BalanceTable(sb).Err? ==>
      r == Err(BalanceTable(sb).error)
  {
    match ShapePrice(price)
    case Err(e) => Err(e)
    case Ok(p) =>
      LabelFacts();
      var v :- VolumeTable(sv);
      var b :- BalanceTable(sb);
      ShapedJoinable(p, v, b);
      Ok(Arrange(p, v, b, DateLabel))
  }

  /**
   * Whenever `main` gets as far as writing, the table has the date, the
   * kept price columns and the four short-selling columns, never the
   * traded value.
   */
  lemma MarketTableColumns(price: Source, sv: Option<Source>, sb: Option<Source>)
    requires SourceOk(price) && (sv.Some? ==> SourceOk(sv.value)) && (sb.Some? ==> SourceOk(sb.value))
    requires MarketTable(price, sv, sb).Ok?
    ensures ShapePrice(price).Ok?
    ensures var t := MarketTable(price, sv, sb).value;
      && WellFormed(t) && t.columns == ShapePrice(price).value.columns + ShortColumns
      && |t.columns| > 0 && t.columns[0] == DateLabel && TradingValue !in t.columns
  {
    var p := ShapePrice(price).value;
    var v := VolumeTable(sv).value;
    var b := BalanceTable(sb).value;
    ShapedJoinable(p, v, b);
    ArrangeSorted(p, v, b, DateLabel);
    TradingValueDropped(p.columns);
  }

  /**
   * Lines 66 and 99-108 on the columns: the written table has the listed price
   * columns the loaded frame has (in the listed order, by PresentOrder), then the four
   * short-selling columns; with all seven price labels fetched, exactly the
   * listed price columns.
   */
  lemma MarketTableSchema(price: Source, sv: Option<Source>, sb: Option<Source>)
    requires SourceOk(price) && (sv.Some? ==> SourceOk(sv.value)) && (sb.Some? ==> SourceOk(sb.value))
    requires MarketTable(price, sv, sb).Ok?
    ensures LoadPrice(price).Ok?
    ensures MarketTable(price, sv, sb).value.columns == Present(PriceColumns, LoadPrice(price).value.columns) + ShortColumns
    ensures (forall c :: c in PriceColumns ==> c in LoadPrice(price).value.columns) ==>
      MarketTable(price, sv, sb).value.columns == PriceColumns + ShortColumns
  {
    MarketTableColumns(price, sv, sb);
    ShapePriceColumns(price);
    var t := LoadPrice(price).value;
    if forall c :: c in PriceColumns ==> c in t.columns {
      PresentAll(PriceColumns, t.columns);
    }
  }

  /** Line 66: the shaped price table's columns are the listed ones the loaded frame has. */
  lemma ShapePriceColumns(src: Source)
    requires SourceOk(src) && ShapePrice(src).Ok?
    ensures LoadPrice(src).Ok?
    ensures ShapePrice(src).value.columns == Present(PriceColumns, LoadPrice(src).value.columns)
  {
    var t := LoadPrice(src).value;
    LabelFacts();
    NormalizedKeeps(t, PriceNumeric, DateLabel);
  }

  /** The traded value is neither a kept price column nor a short-selling column. */
  lemma TradingValueDropped(columns: seq<string>)
    requires forall c :: c in columns ==> c in PriceColumns
    ensures TradingValue !in columns + ShortColumns
  {
    LabelFacts();
  }

  /**
   * Whenever `main` gets as far as writing, the table has exactly the dates
   * of the shaped price table, newest first with missing dates last, and no
   * missing short-selling cell.
   */
  lemma MarketTableRows(price: Source, sv: Option<Source>, sb: Option<Source>)
    requires SourceOk(price) && (sv.Some? ==> SourceOk(sv.value)) && (sb.Some? ==> SourceOk(sb.value))
    requires MarketTable(price, sv, sb).Ok?
    ensures ShapePrice(price).Ok?
    ensures HasColumn(ShapePrice(price).value.rows, DateLabel)
    ensures var t := MarketTable(price, sv, sb).value;
      && HasColumn(t.rows, DateLabel) && SortedBy(t.rows, DateLabel, true)
      && (forall k :: k in Keys(t.rows, DateLabel) <==> k in Keys(ShapePrice(price).value.rows, DateLabel))
      && (forall x: Row, c :: x in t.rows && c in ShortColumns ==> c in x && !x[c].Missing?)
  {
    var p := ShapePrice(price).value;
    var v := VolumeTable(sv).value;
    var b := BalanceTable(sb).value;
    ShapedJoinable(p, v, b);
    ArrangeSorted(p, v, b, DateLabel);
    ArrangeContents(p, v, b, DateLabel);
  }

  /**
   * When neither short table repeats a date, the written table has one row
   * per price date, each date once, in calendar order with the latest day
   * first.
   */
  lemma MarketTableNewestFirst(price: Source, sv: Option<Source>, sb: Option<Source>)
    requires SourceOk(price) && (sv.Some? ==> SourceOk(sv.value)) && (sb.Some? ==> SourceOk(sb.value))
    requires MarketTable(price, sv, sb).Ok?
    requires var v := VolumeTable(sv);
      v.Ok? && HasColumn(v.value.rows, DateLabel) && DistinctKeys(v.value.rows, DateLabel)
    requires var b := BalanceTable(sb);
      b.Ok? && HasColumn(b.value.rows, DateLabel) && DistinctKeys(b.value.rows, DateLabel)
    ensures ShapePrice(price).Ok?
    ensures var t := MarketTable(price, sv, sb).value;
      && |t.rows| == |ShapePrice(price).value.rows|
      && HasColumn(t.rows, DateLabel) && DistinctKeys(t.rows, DateLabel)
      && Chronological(t.rows, DateLabel, true)
  {
    LabelFacts();
    var p := ShapePrice(price).value;
    var v := VolumeTable(sv).value;
    var b := BalanceTable(sb).value;
    ShapedJoinable(p, v, b);
    ArrangeNewestFirst(p, v, b, DateLabel);
  }

  // ---------------------------------------------------------------------
  // main, step by step
  // ---------------------------------------------------------------------

  /** Lines 60-67, coercing the price columns of a frame in place (line 65). */
  method PreparePrice(src: Source) returns (r: Result<Table, Error>)
    requires SourceOk(src)
    ensures r == ShapePrice(src)
  {
    var loaded := LoadPrice(src);
    if loaded.Err? {
      return Err(loaded.error);
    }
    var frame := new Frame(loaded.value);
    frame.NormalizeNumeric(PriceNumeric);
    LabelFacts();
    NormalizedKeeps(loaded.value, PriceNumeric, DateLabel);
    r := Ok(FinishPrice(frame.Value()));
  }

  /** Lines 71-83 (or 86-97), coercing the two value columns of a frame in place (line 80 or 95). */
  method PrepareShort(src: Option<Source>, value: string, labels: seq<string>) returns (r: Result<Table, Error>)
    requires src.Some? ==> SourceOk(src.value)
    requires |labels| == 3 && Distinct(labels) && labels[0] == DateLabel
    ensures r == ShapeShort(src, value, labels)
  {
    if src.None? || IsEmpty(src.value) {
      return Ok(Table(labels, []));
    }
    var loaded := LoadShort(src.value, value, labels);
    if loaded.Err? {
      return Err(loaded.error);
    }
    var frame := new Frame(loaded.value);
    frame.NormalizeNumeric(labels[1..]);
    assert DateLabel !in labels[1..];
    NormalizedKeeps(loaded.value, labels[1..], DateLabel);
    r := Ok(Table(labels, DropMissing(frame.rows, DateLabel)));
  }

  /**
   * `main` from the three fetched frames to the table it writes (line 110);
   * the coercions and the zero fill update frames in place.
   */
  method BuildMarketTable(price: Source, sv: Option<Source>, sb: Option<Source>) returns (r: Result<Table, Error>)
    requires SourceOk(price) && (sv.Some? ==> SourceOk(sv.value)) && (sb.Some? ==> SourceOk(sb.value))
    ensures r == MarketTable(price, sv, sb)
  {
    var p := PreparePrice(price);
    if p.Err? {
      return Err(p.error);
    }
    LabelFacts();
    var v := PrepareShort(sv, ShortVolume, VolumeColumns);
    if v.Err? {
      return Err(v.error);
    }
    var b := PrepareShort(sb, ShortBalance, BalanceColumns);
    if b.Err? {
      return Err(b.error);
    }
    ShapedJoinable(p.value, v.value, b.value);
    var out := new Frame(MergeTwo(p.value, v.value, b.value, DateLabel));
    out.FillZeros(ShortColumns);
    r := Ok(Table(out.columns, SortRows(out.rows, DateLabel, true)));
  }
}
