# Daily market table for one KRX ticker

`src/run_market_ohlcv.py` builds one CSV table for a single Korean-exchange
ticker. It takes three frames from the market-data provider:
- the daily prices (OHLCV);
- the daily short-selling volume and its ratio;
- the daily short-selling balance and its ratio.

It reshapes each one, left-merges the two short-selling frames onto the price
frame by date (`일자`), sets missing short-selling values to 0, and sorts the
rows newest first.

This project models that transformation in Dafny:

- `cells.dfy` (module `Cells`): a frame cell (missing, number or text) and
  `_to_num`, which turns text such as `"1,234"` into a number and anything it
  cannot read into a missing value.
- `dates.dfy` (module `Dates`): dates in the `YYYY-MM-DD` form the script
  writes, and the proof that sorting them as strings sorts them by calendar
  day.
- `frames.dfy` (module `Frames`): frames as values (`Table`), plus a mutable
  `Frame` class. Its `NormalizeNumeric` (`_normalize_numeric`) and
  `FillZeros` (the `fillna(0)` loop) update columns in place.
- `steps.dfy` (module `Steps`): the pandas steps the script chains. These are
  `reset_index`, `rename`, column selection, `to_datetime(...).strftime`,
  `dropna` and `drop_duplicates`. A step that raises returns an `Error`.
- `sorting.dfy` (module `Sorting`): `sort_values` on the date column, in
  either direction, with missing dates last.
- `merging.dfy` (module `Merging`): `merge(..., how="left")`, and two left
  merges in a row.
- `combining.dfy` (module `Combining`): the end of `main` for any key column:
  the merges, the zero fill and the newest-first sort.
- `pipeline.dfy` (module `Pipeline`): `main` with its own labels.
  - `MarketTable` is the written table as a function of the three fetched
    frames.
  - `BuildMarketTable` computes the same table step by step, updating frames
    in place.
- `wrappers.dfy` (module `Wrappers`): `Option` and `Result`.

A fetched frame is an input (`Steps.Source`): its optional index name, its
index, and its body. A short-selling fetch that returns nothing, or something
other than a frame, is `None`.

### Bad and repeated dates

- Line 64 (and lines 79 and 94) call `pd.to_datetime` without
  `errors="coerce"`. An unreadable date therefore raises (`BadDate`), and so
  does a date outside the range a pandas Timestamp can hold. The
  `dropna(subset=["일자"])` at line 80 (and 95) removes only rows whose date
  is missing or a NaT string (`Steps.ToDate`, `Pipeline.CleanShort`).
- Line 67 removes repeated dates from the price frame only. A
  short-selling frame that repeats a date makes the left merge at line 100
  repeat that price row. So one row per date is proved only when neither
  short-selling frame repeats a date (`Pipeline.MarketTableNewestFirst`).
  Key sets and the sort order are proved without that condition
  (`Pipeline.MarketTableRows`).

## Model

| member | source | states |
|---|---|---|
| Cells.ToNum | src/run_market_ohlcv.py:31-39 | the result is never text; a missing cell stays missing; a number passes through unchanged |
| Cells.ParseDecimal | src/run_market_ohlcv.py:36-39 | `float(s)` on an optionally signed decimal numeral: a result implies a digit; `ParseDecimalNumeral` says exactly which texts read, and `DecimalRead`, `ParseDigits`, `PlusRead` and `MinusRead` give the values |
| Cells.ParseUnsigned | src/run_market_ohlcv.py:36-39 | an unsigned numeral reads only when it holds a digit, and reads as a non-negative value; `ParseUnsignedNumeral` says exactly which texts read, and `UnsignedDecimal` gives the value |
| Cells.ParseUnsignedNumeral | src/run_market_ohlcv.py:36-39 | the unsigned parse succeeds exactly on `IsUnsignedNumeral` texts: digits and at most one point, with at least one digit |
| Cells.PointNumeral | src/run_market_ohlcv.py:36-37 | digits, a point and a tail form a numeral exactly when the tail is digits and some digit is present |
| Cells.ParseDecimalNumeral | src/run_market_ohlcv.py:36-39 | `float` succeeds exactly on `IsNumeral` texts, an unsigned numeral with at most one leading sign; on every other text it raises |
| Cells.RemoveCommas | src/run_market_ohlcv.py:35 | `replace(",", "")`: the result holds no comma, and only characters of the input |
| Cells.TrimStart | src/run_market_ohlcv.py:35 | the result is a suffix of the input; what was cut is all whitespace; the result does not start with whitespace |
| Cells.TrimEnd | src/run_market_ohlcv.py:35 | the result is a prefix of the input; what was cut is all whitespace; the result does not end with whitespace |
| Cells.Indent | src/run_market_ohlcv.py:35 | the part `lstrip()` removes is a prefix of the input and all whitespace |
| Cells.Strip | src/run_market_ohlcv.py:35 | `strip()`: the result neither starts nor ends with whitespace and is no longer than the input |
| Cells.StripSlice | src/run_market_ohlcv.py:35 | the result of `strip()` is the input cut between an all-whitespace prefix (`Indent`) and an all-whitespace suffix |
| Cells.StripSurrounding | src/run_market_ohlcv.py:35 | `strip()` ignores any whitespace added on either side |
| Cells.RemoveCommasAppend | src/run_market_ohlcv.py:35 | comma removal distributes over concatenation |
| Cells.ToNumIdempotent | src/run_market_ohlcv.py:31-39 | applying `_to_num` twice gives the same cell as applying it once |
| Cells.NoDigitIsMissing | src/run_market_ohlcv.py:36-39 | text without a digit (such as the placeholder `-`) becomes missing, never zero and never an error |
| Cells.NonNumeralIsMissing | src/run_market_ohlcv.py:35-39 | text becomes missing exactly when, without its commas and surrounding whitespace, it is not a numeral; so a failed `float` never gives zero |
| Cells.CommaIgnored | src/run_market_ohlcv.py:35 | removing a comma anywhere in the text does not change the coerced value |
| Cells.SurroundingSpaceIgnored | src/run_market_ohlcv.py:35 | whitespace around the text does not change the coerced value |
| Cells.GroupedRoundTrip | src/run_market_ohlcv.py:35-37 | every whole number written with thousands separators reads back as that number |
| Cells.DigitsValueAppend | src/run_market_ohlcv.py:37 | the value of concatenated digit strings is the first value shifted by the second's length, plus the second value |
| Cells.GroupedDigits | src/run_market_ohlcv.py:35-37 | without its commas, the grouped numeral is a digit string whose value is the number |
| Cells.DigitsValueBound | src/run_market_ohlcv.py:37 | a digit string of length n is worth less than 10^n |
| Cells.DecimalValue | src/run_market_ohlcv.py:36-37 | the value of `whole.frac` lies between the whole part and the next whole number |
| Cells.LeadingDigitsPrefix | src/run_market_ohlcv.py:37 | the digits at the front of a digit string followed by a non-digit are exactly that digit string |
| Cells.UnsignedDecimal | src/run_market_ohlcv.py:36-37 | `float("w.f")` for digit strings `w` and `f`, not both empty, is `w` plus `f` over 10 to the length of `f`; this covers `"12.5"` and `".5"` |
| Cells.DecimalRead | src/run_market_ohlcv.py:36-37 | with no sign in front, `"w.f"` reads as the value `UnsignedDecimal` gives |
| Cells.WholeUnsigned | src/run_market_ohlcv.py:36-37 | a non-empty digit string reads unsigned as its value |
| Cells.ParseDigits | src/run_market_ohlcv.py:36-37 | `float(d)` for a non-empty digit string `d` is the value of `d` |
| Cells.PlusRead | src/run_market_ohlcv.py:36-37 | `+` in front of any unsigned numeral keeps its value (`"+150"`, `"+2.35"`) |
| Cells.MinusRead | src/run_market_ohlcv.py:36-37 | `-` in front of any unsigned numeral negates its value: with `UnsignedDecimal`, `"-2.35"` reads as `-(2 + 35/100)`, and with `WholeUnsigned`, `"-150"` as `-150` |
| Cells.ThousandsExample | src/run_market_ohlcv.py:31-39 | `"1,234"` becomes 1234.0 |
| Cells.PlaceholderExample | src/run_market_ohlcv.py:31-39 | `"-"` becomes missing |
| Cells.LetterExample | src/run_market_ohlcv.py:36-39 | `"12abc"` is not a numeral, so it becomes missing although it holds digits |
| Cells.InnerSignExample | src/run_market_ohlcv.py:36-39 | `"1-2"` is not a numeral |
| Cells.TwoPointsExample | src/run_market_ohlcv.py:36-39 | `"1.2.3"` is not a numeral |
| Dates.LexLessTransitive | src/run_market_ohlcv.py:67 | Python's string order is transitive |
| Dates.LexLessTotal | src/run_market_ohlcv.py:67 | any two different strings are ordered one way or the other |
| Dates.LexLessAsymmetric | src/run_market_ohlcv.py:67 | Python's string order is asymmetric |
| Dates.DigitsOrder | src/run_market_ohlcv.py:67 | digit strings of equal length compare as strings exactly as their values compare |
| Dates.ChronologicalOrder | src/run_market_ohlcv.py:64-67 | a `YYYY-MM-DD` string sorts before another exactly when it is the earlier calendar day |
| Dates.TimestampRangeConvex | src/run_market_ohlcv.py:64 | a date between two dates a Timestamp can hold is one a Timestamp can hold |
| Frames.FillZero | src/run_market_ohlcv.py:105 | `fillna(0)` on a cell: the result is never missing; a missing cell becomes 0; any other cell is unchanged |
| Frames.CellUpdatesIdempotent | src/run_market_ohlcv.py:44 | both per-cell updates (`_to_num` and `fillna(0)`) are idempotent |
| Frames.MapColumns | src/run_market_ohlcv.py:41-45 | labels, row count and each row's labels are unchanged, and so is every cell outside the listed columns |
| Frames.Normalized | src/run_market_ohlcv.py:41-45 | `_normalize_numeric` as a value: the same shape, with nothing outside the listed columns changed |
| Frames.Filled | src/run_market_ohlcv.py:103-105 | the fill loop as a value: the same shape, with nothing outside the listed columns changed |
| Frames.MapColumnsCells | src/run_market_ohlcv.py:42-45 | for any order or repetition of the list: labels, row count and row keys are unchanged; each cell under a listed label becomes `f` of its old value; every other cell is unchanged |
| Frames.NormalizedCells | src/run_market_ohlcv.py:41-45 | `_normalize_numeric` coerces exactly the cells under listed labels the frame has, and changes nothing else |
| Frames.NormalizedKeeps | src/run_market_ohlcv.py:65 | coercing other columns leaves the date column and the frame's shape as they were |
| Frames.FilledCells | src/run_market_ohlcv.py:103-105 | the fill loop sets missing cells in listed columns to 0 and changes nothing else |
| Frames.Frame.NormalizeNumeric | src/run_market_ohlcv.py:41-45 | in place: the frame afterwards equals `Normalized` of the frame before |
| Frames.Frame.FillZeros | src/run_market_ohlcv.py:103-105 | in place: the frame afterwards equals `Filled` of the frame before |
| Steps.ResetIndex | src/run_market_ohlcv.py:61-62 | no index name leaves the frame unchanged; a named index becomes the first column, holding the index, with every other cell unchanged; it fails with `DuplicateLabels` exactly when a column already carries that name |
| Steps.ResetIndexFetched | src/run_market_ohlcv.py:61-62 | every cell of the reset frame is the fetched index value or body cell under its label (`Fetched`) |
| Steps.FirstAbsent | src/run_market_ohlcv.py:77 | finds a wanted label that is not a column exactly when one exists |
| Steps.Project | src/run_market_ohlcv.py:77-78 | the row holds exactly the new labels, each with the cell under the matching old label |
| Steps.SelectAs | src/run_market_ohlcv.py:77-78 | `df[names]` then relabelling: it succeeds exactly when every name is a column; otherwise `MissingColumn` names an absent label; every cell is carried over under its new label |
| Steps.Relabel | src/run_market_ohlcv.py:63 | `rename`: it succeeds exactly when the new labels are distinct, keeping every cell under its column's new label |
| Steps.Renamed | src/run_market_ohlcv.py:63 | `rename(columns={"날짜": "일자"})`: only that label changes |
| Steps.Stripped | src/run_market_ohlcv.py:75 | every label is `strip()`ped, in place |
| Steps.Locate | src/run_market_ohlcv.py:76-78 | finds the label's position exactly when one column carries it; otherwise `DuplicateLabels` |
| Steps.LocateAll | src/run_market_ohlcv.py:76-78 | succeeds exactly when each name is a column, exactly once, giving its position; an absent name gives `MissingColumn` |
| Steps.ToDate | src/run_market_ohlcv.py:64 | a `YYYY-MM-DD` date a Timestamp can hold, or a missing cell, is kept; NaT strings become missing; numbers, other text and out-of-range dates raise |
| Steps.ToDateRows | src/run_market_ohlcv.py:64 | it succeeds exactly when every date cell converts; each row then changes only in the date column |
| Steps.ConvertDates | src/run_market_ohlcv.py:64 | it succeeds exactly when every date converts; the shape is kept; dates are parsed; every other cell is unchanged |
| Steps.DropMissing | src/run_market_ohlcv.py:80 | `dropna(subset=[col])`: a row is kept exactly when its `col` cell is not missing |
| Steps.Where | src/run_market_ohlcv.py:80 | the positions of the rows that pass a test, each in range, in increasing order |
| Steps.WhereComplete | src/run_market_ohlcv.py:80 | every row that passes the test has its position in `Where` |
| Steps.WhereAlike | src/run_market_ohlcv.py:80 | rows passing the test at the same positions give the same `Where` |
| Steps.DropMissingPositions | src/run_market_ohlcv.py:80 | `dropna` keeps order and repetition: row j of the result is the input row at the j-th position whose date is present |
| Steps.DropDuplicates | src/run_market_ohlcv.py:67 | `drop_duplicates(col)`: keeps only rows of the input, never more of them |
| Steps.DropDuplicatesOrder | src/run_market_ohlcv.py:67 | the kept rows are input rows at increasing positions, so their order is the input's |
| Steps.DropDuplicatesKeys | src/run_market_ohlcv.py:67 | afterwards no date repeats, and the set of dates is unchanged |
| Steps.DropDuplicatesKeepsFirst | src/run_market_ohlcv.py:67 | the first row of every date is kept |
| Steps.DropDuplicatesOnlyFirst | src/run_market_ohlcv.py:67 | every kept row is the first row of its date |
| Sorting.KeyLeTotal | src/run_market_ohlcv.py:67 | any two date cells may be ordered one way or the other |
| Sorting.KeyLeTransitive | src/run_market_ohlcv.py:67 | the sort order on date cells, missing dates last, is transitive |
| Sorting.KeyLeChronological | src/run_market_ohlcv.py:108 | two different dates in sort order are in calendar order, in the requested direction |
| Sorting.Insert | src/run_market_ohlcv.py:67 | the result holds the rows plus the inserted one |
| Sorting.SortRows | src/run_market_ohlcv.py:67 | `sort_values` is a permutation of the rows |
| Sorting.InsertSorted | src/run_market_ohlcv.py:67 | inserting into sorted date-keyed rows keeps them sorted |
| Sorting.SortRowsSorted | src/run_market_ohlcv.py:67 | sorted by date in the requested direction, missing dates last |
| Sorting.SortRowsDistinct | src/run_market_ohlcv.py:67 | sorting keeps distinct dates distinct, and keeps the set of dates |
| Sorting.InsertDistinct | src/run_market_ohlcv.py:67 | inserting a row with a new date keeps the dates distinct and adds that date |
| Sorting.SameElementsKeys | src/run_market_ohlcv.py:108 | a permutation of rows has the same set of dates |
| Sorting.SortedChronological | src/run_market_ohlcv.py:108 | rows sorted by distinct dates are in calendar order (the latest first when descending) |
| Sorting.DateKeysFromKeys | src/run_market_ohlcv.py:100 | rows whose dates are all among parsed dates have parsed dates |
| Merging.Without | src/run_market_ohlcv.py:100 | the labels other than the key, in order; distinct labels stay distinct |
| Merging.Matches | src/run_market_ohlcv.py:100 | exactly the right rows with the given key |
| Merging.MatchesPositions | src/run_market_ohlcv.py:100 | the matching right rows keep their order and repetition: match j is the right row at the j-th position with the key |
| Merging.Blank | src/run_market_ohlcv.py:100 | a missing cell under every right label, for left rows with no match |
| Merging.MergeRow | src/run_market_ohlcv.py:100 | each left row contributes at least one row, each carrying the left row's key |
| Merging.MergeRowCount | src/run_market_ohlcv.py:100 | one left row yields one output row per right row with its key, in right-table order, or one row blank on the right when there is none |
| Merging.MergeRows | src/run_market_ohlcv.py:100 | at least one output row per left row |
| Merging.LeftMerge | src/run_market_ohlcv.py:100 | the merged labels are the left labels then the right's other labels |
| Merging.JoinRowOf | src/run_market_ohlcv.py:100 | a joined row has the left labels and the right's other labels, and the left row's key |
| Merging.MergeRowsOrigin | src/run_market_ohlcv.py:100 | every merged row comes from some left row |
| Merging.MergeRowsReach | src/run_market_ohlcv.py:100 | every left row's contribution is in the merge |
| Merging.LeftMergeOrigin | src/run_market_ohlcv.py:100 | every merged row keeps all cells of a left row, and is blank on the right when that row's key has no right row, whether or not right keys repeat |
| Merging.MergeRowKeeps | src/run_market_ohlcv.py:100 | one left row's output rows keep its cells, and are blank on the right when nothing matches |
| Merging.LeftMergeShape | src/run_market_ohlcv.py:100 | the merge is a well-formed frame with at least one row per left row |
| Merging.LeftMergeKeys | src/run_market_ohlcv.py:100 | the merged frame has exactly the left frame's keys: it keeps every left row and adds no key of its own |
| Merging.LeftMergeKeysFrom | src/run_market_ohlcv.py:100 | every merged key is a left key |
| Merging.LeftMergeKeysTo | src/run_market_ohlcv.py:100 | every left key is a merged key |
| Merging.Lookup | src/run_market_ohlcv.py:100 | a right row with the key, found exactly when the key occurs |
| Merging.LookupFinds | src/run_market_ohlcv.py:100 | with unique keys, each row is found by its own key |
| Merging.MatchesUnique | src/run_market_ohlcv.py:100 | with unique right keys, a key matches at most the row `Lookup` finds |
| Merging.MergedRow | src/run_market_ohlcv.py:100 | the single merged row of a left row keeps its key and all its labels |
| Merging.MergeRowsUnique | src/run_market_ohlcv.py:100 | with unique right keys, the merge is row for row with the left frame |
| Merging.MergedRowCells | src/run_market_ohlcv.py:100 | a merged row keeps the left cells, and takes each added cell from the matching right row, or missing when there is none |
| Merging.LeftMergeUnique | src/run_market_ohlcv.py:100 | with unique right keys, the merge has one row per left row, with the left cells unchanged |
| Merging.LeftMergeMatched | src/run_market_ohlcv.py:100 | with unique right keys, each added cell of row i comes from the right row with row i's key, or is missing |
| Merging.FirstOfTwo | src/run_market_ohlcv.py:100 | the second merge applies to the first one's result without clashing labels |
| Merging.MergeTwo | src/run_market_ohlcv.py:100 | the chained merge is a well-formed frame with the price labels, then the first frame's added labels, then the second's |
| Merging.MergeTwoKeys | src/run_market_ohlcv.py:100 | the chained merge has at least one row per price row, and exactly the price frame's keys |
| Merging.MergeTwoUnique | src/run_market_ohlcv.py:100 | with unique short-frame keys: one row per price row, price cells unchanged, and each added cell from the matching short row |
| Combining.Added | src/run_market_ohlcv.py:100 | the added labels are exactly the short frames' non-key labels |
| Combining.FilledKeys | src/run_market_ohlcv.py:103-105 | filling columns other than the key keeps the frame's shape and its keys |
| Combining.UnmatchedCell | src/run_market_ohlcv.py:100-105 | a date with no short-selling row gets 0 after the fill |
| Combining.Combine | src/run_market_ohlcv.py:100-105 | the merged and filled frame is well formed, with the price labels then the added labels, and at least one row per price row |
| Combining.Arrange | src/run_market_ohlcv.py:108 | the sorted frame has the same labels and the same rows, as a multiset, as the combined one |
| Combining.CombineKeys | src/run_market_ohlcv.py:100-105 | the merged and filled frame has exactly the price frame's dates |
| Combining.CombineFilled | src/run_market_ohlcv.py:103-105 | no added cell is missing after the fill |
| Combining.CombineKeepsPrice | src/run_market_ohlcv.py:100-105 | with unique short dates, one row per price row, in order, price cells unchanged |
| Combining.CombineFirstCells | src/run_market_ohlcv.py:100-105 | with unique short dates, each short-volume cell comes from that day's row, 0 when there is none or it is missing |
| Combining.CombineSecondCells | src/run_market_ohlcv.py:100-105 | likewise for each short-balance cell |
| Combining.UnmatchedIsZero | src/run_market_ohlcv.py:100-105 | every combined row has a date; a row whose date no short frame row has gets 0 in every column that frame adds, whether or not the short dates repeat |
| Combining.CombinedRow | src/run_market_ohlcv.py:100-105 | one combined row: it has its date, and 0 under each column added by a short frame that lacks the date |
| Combining.CombineDates | src/run_market_ohlcv.py:100-105 | every combined row has a parsed date |
| Combining.ArrangeSorted | src/run_market_ohlcv.py:108 | the output is a permutation of the combined rows under the same labels, sorted newest first with missing dates last |
| Combining.ArrangeContents | src/run_market_ohlcv.py:100-108 | the output has exactly the price dates, and no missing added cell |
| Combining.ArrangeNewestFirst | src/run_market_ohlcv.py:100-108 | with unique dates everywhere: one row per price row, each date once, in calendar order with the latest day first |
| Pipeline.LabelFacts | src/run_market_ohlcv.py:65-103 | the label lists are distinct; the traded value is not kept; no short-selling label is a price label |
| Pipeline.WithoutOthers | src/run_market_ohlcv.py:78 | a short table's non-date labels are its two value labels |
| Pipeline.Present | src/run_market_ohlcv.py:66 | `[c for c in wanted if c in columns]`: exactly the wanted labels present, distinct when the wanted ones are, the first wanted one first when present |
| Pipeline.PresentOrder | src/run_market_ohlcv.py:66 | the kept labels are in the order of the wanted list |
| Pipeline.PresentAll | src/run_market_ohlcv.py:66 | when every wanted label is present, the kept labels are the wanted list itself |
| Pipeline.LoadPrice | src/run_market_ohlcv.py:61-64 | the loaded price frame is well formed and has a parsed date in every row; it fails only with `DuplicateLabels`, a missing `일자` or `BadDate` |
| Pipeline.LoadPriceSucceeds | src/run_market_ohlcv.py:61-64 | the price frame loads exactly when the index resets without a clash, the relabelled columns are distinct and include `일자`, and every fetched cell of that column reads as a date |
| Pipeline.RelabelledDates | src/run_market_ohlcv.py:63-64 | after the relabelling, the `일자` cells are the fetched cells of the column relabelled `일자`, so the dates parse exactly when those cells read |
| Pipeline.LoadPriceCells | src/run_market_ohlcv.py:61-64 | one row per fetched row; under `일자` the parsed date of the fetched `날짜` (or `일자`) cell, under every other label the fetched cell |
| Pipeline.BaseColumns | src/run_market_ohlcv.py:66 | the kept columns: exactly the listed price columns present, date first |
| Pipeline.BaseRows | src/run_market_ohlcv.py:67 | `ohlcv[base_cols]`: each row cut to the kept columns, with its date unchanged |
| Pipeline.FinishPrice | src/run_market_ohlcv.py:66-67 | the kept columns are the listed price columns present, date first, and rows are never added |
| Pipeline.FinishPriceWellFormed | src/run_market_ohlcv.py:66-67 | the price table is well formed, date first, with only listed price columns |
| Pipeline.FinishPriceDates | src/run_market_ohlcv.py:67 | the price dates are parsed, unique, ascending, and exactly the dates of the loaded frame |
| Pipeline.FinishPriceKeepsFirst | src/run_market_ohlcv.py:67 | each price row is the first loaded row of its date, cut to the kept columns |
| Pipeline.FinishPriceHasFirst | src/run_market_ohlcv.py:67 | the first loaded row of every date is in the price table |
| Pipeline.ShapePrice | src/run_market_ohlcv.py:60-67 | it fails exactly when loading fails, with the same error; any result satisfies `PriceShaped` (listed columns, date first, parsed unique dates, ascending) |
| Pipeline.ShapePriceColumns | src/run_market_ohlcv.py:66 | the shaped price table's columns are `Present(PriceColumns, <loaded columns>)` |
| Pipeline.DateColumn | src/run_market_ohlcv.py:76 | `날짜` when present, else the first column |
| Pipeline.LoadShort | src/run_market_ohlcv.py:73-79 | one row per fetched row, the three labels, parsed dates; it fails exactly when the index reset, the column lookup or a date fails; row i holds the parsed fetched date and the two fetched value cells (`HoldsFetched`) |
| Pipeline.ShortSourceColumns | src/run_market_ohlcv.py:75-77 | the three selected columns are found exactly when each wanted stripped label is carried by one column, and each selected column strips to the wanted label; otherwise `MissingColumn` or `DuplicateLabels` |
| Pipeline.SelectedCells | src/run_market_ohlcv.py:73-78 | the selected and relabelled columns hold the fetched cells |
| Pipeline.ConvertedCells | src/run_market_ohlcv.py:79 | parsing the dates succeeds exactly when every fetched date reads, and keeps the fetched value cells |
| Pipeline.ShapeShort | src/run_market_ohlcv.py:72-83 | a missing or empty fetch gives the empty table with the three labels; otherwise it fails exactly when loading fails, with the same error; any success satisfies `ShortShaped` |
| Pipeline.CleanShort | src/run_market_ohlcv.py:80 | after coercion and `dropna`, no row lacks a date |
| Pipeline.CleanShortRows | src/run_market_ohlcv.py:80 | in order, exactly the rows whose date is present, with the date unchanged and both value cells put through `_to_num` |
| Pipeline.VolumeTable | src/run_market_ohlcv.py:71-83 | the shaped short-volume table satisfies `ShortShaped` with its three labels |
| Pipeline.BalanceTable | src/run_market_ohlcv.py:86-97 | the shaped short-balance table satisfies `ShortShaped` with its three labels |
| Pipeline.ShortLabels | src/run_market_ohlcv.py:78-103 | the two merges add exactly the four filled labels, and the short tables share only the date |
| Pipeline.ShapedJoinable | src/run_market_ohlcv.py:100 | shaped tables always merge without suffixes, adding exactly the four short-selling columns |
| Pipeline.MarketTable | src/run_market_ohlcv.py:60-108 | the table is written exactly when all three frames shape; the first failing step, in the order price, volume, balance, gives the error |
| Pipeline.MarketTableColumns | src/run_market_ohlcv.py:60-108 | a written table is well formed, with the price columns (date first) then the four short-selling columns, and never the traded value |
| Pipeline.MarketTableSchema | src/run_market_ohlcv.py:66-108 | the written columns are the listed price columns the loaded frame has, then the four short-selling columns; with all seven fetched, exactly the schema of line 9 (`PresentOrder` gives the listed order) |
| Pipeline.TradingValueDropped | src/run_market_ohlcv.py:65-66 | the traded value is coerced but never kept |
| Pipeline.MarketTableRows | src/run_market_ohlcv.py:60-108 | a written table has exactly the price dates, newest first with missing dates last, and no missing short-selling cell |
| Pipeline.MarketTableNewestFirst | src/run_market_ohlcv.py:60-108 | when no short table repeats a date: one row per price date, each date once, in calendar order with the latest day first |
| Pipeline.PreparePrice | src/run_market_ohlcv.py:60-67 | coercing the price columns in place gives `ShapePrice` |
| Pipeline.PrepareShort | src/run_market_ohlcv.py:71-97 | coercing the two value columns in place gives `ShapeShort` |
| Pipeline.BuildMarketTable | src/run_market_ohlcv.py:60-108 | in-place merge, fill and sort give `MarketTable`, so every lemma about `MarketTable` holds for the computed table |

## Left out

- The provider calls (`stock.get_market_ohlcv`, `get_shorting_volume_by_date`, `get_shorting_balance_by_date`, lines 60, 71, 86) are external. Their results are the inputs `price`, `sv` and `sb`.
- `_yyyymmdd_range` and `datetime.today()` read the clock; the environment settings (lines 25-28) and `os.makedirs` touch the outside world. None are modelled.
- The CSV write (line 110), the three summary prints (lines 111-113) and the exit handler (lines 115-120) are output and process control. None are modelled.
- Cells.ToNum: numbers are exact reals. The model does not capture IEEE rounding, or Python's `float` grammar beyond signed ASCII decimals: exponents (`1e5`), `inf`/`nan`, digit underscores and non-ASCII digits (such as fullwidth `１２` or Arabic-Indic `١٢`, which `float` accepts) read as missing. A Python `bool` cell is not a separate case.
- Steps.ToDate: the Timestamp range is modelled by calendar day (1677-09-22 to 2262-04-11), as dates written `YYYY-MM-DD` are midnights. The model does not capture `pd.to_datetime` formats other than `YYYY-MM-DD`. Any other text (besides the NaT strings) raises `BadDate`, and so does a number; pandas would read many such cells as dates.
- Steps.Relabel: the price `rename` at line 63 fails with `DuplicateLabels` when the result would carry a label twice (a frame with both `날짜` and `일자`); pandas would carry on with two `일자` columns and fail later. Stripping the short-selling labels (line 75) fails only when a selected label is carried by several columns (`Pipeline.ShortSourceColumns`); other collisions pass, as in pandas. Provider frames are assumed to have distinct labels (`Steps.SourceOk`).
- Steps.Stripped: labels are strings, so `str(c)` on a non-string label is not modelled.
- Merging.LeftMerge: the `_x`/`_y` suffixes pandas adds to labels shared by both sides are not modelled. `Merging.Chainable` requires that no label other than the key is shared. `Pipeline.ShapedJoinable` proves that holds for every table `main` merges.
- Merging.LeftMerge: rows are maps with labels in column order, so only the row order and the labels are modelled, not pandas dtypes or the index.
- Sorting.SortRows: `sort_values` uses an unstable quicksort; the model sorts by insertion, which keeps ties in input order. The contracts state only sortedness and permutation. Ties occur only between missing dates or repeated short-selling dates.
- Pipeline.MarketTableNewestFirst: requires that neither short-selling table repeats a date. A repeated date would repeat the price row in the merge.
- Frames.Frame.NormalizeNumeric: the frame is one object holding columns and rows; pandas' separate column arrays and copy-on-write are not modelled.
