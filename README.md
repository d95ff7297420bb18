# AEON quarterly segment dashboard — data-preparation core in Dafny

`aeon-segment-quarterly-analysis/app.py` is a Streamlit dashboard over a CSV
file of AEON's quarterly results per business segment. Apart from its UI and
charts, it holds a small data-preparation core, and this project models that
core and proves what it does:

- **The fiscal-period sort key** (`sort_quarter_key`). `"FY2023-3Q"` becomes
  `(2023, 3)` and `"FY2023"` becomes `(2023, 0)`. Any label that fails to
  parse becomes `(0, 0)`. Module `QuarterKey` holds it, and module `Text`
  holds the Python `str` operations and the `int()` it relies on.
- **The amount-column normaliser** (`convert_to_numeric`). It removes every
  `,`, strips whitespace and parses the number. A cell that does not parse
  becomes 0, and a column that is already numeric is returned unchanged.
  Module `Numeric`.
- **The in-memory steps of `load_segment_data`** (module `Loader`):
  - keep the rows whose statement type is Q1–Q4;
  - convert each amount column in turn;
  - attach the sort key;
  - order the rows by (segment, sort key) with a stable sort, a blank (NaN)
    segment after every named one.
- **The analysis-period selection** (module `Periods`):
  - the distinct periods, sorted by key;
  - a start and an end chosen among them, rejected when the start lies after
    the end;
  - otherwise, the inclusive run between the two and the rows of the table
    that fall in it.
- **The growth tab's loop** (module `Growth`). For each segment except
  `その他`, the segment's rows are taken in key order. A blank (NaN)
  segment matches no row, so it adds nothing. They are appended, with
  revenue divided by the earliest revenue, when that base revenue is
  positive.
- **The segment detail tab** (module `Growth`):
  - the ratio column, which is the scalar 0 when the base is not positive;
  - the period-over-period change column, whose first row is overwritten with
    NaN.

Generic sequence machinery sits in `Seqs`: stable insertion sort, `unique`,
boolean-mask filtering and the lemmas about them. `Wrappers` holds
`Option`/`Result`.

The model follows the source's own form:
- Pure Python code becomes functions and lemmas.
- The loop over the amount columns becomes a method with a loop
  (`Loader.LoadSegmentData`), and so does the growth loop
  (`Growth.BuildGrowthTable`).
- The detail-view column assignments are methods over arrays
  (`Growth.RatioColumn`, and `Growth.ChangeColumn`, which overwrites the
  first row in place).

Each method is proved equal to a specification function, and the properties
are proved about those functions.

## Model

| member | source | states |
|---|---|---|
| QuarterKey.SortQuarterKey | aeon-segment-quarterly-analysis/app.py:69-80 | a value that is not a str (where `'-' in q` raises) gets the fallback key (0, 0) |
| QuarterKey.QuarterLabelKey | aeon-segment-quarterly-analysis/app.py:72-76 | "FY<Y>-<N>Q", alone or followed by further '-' parts, has the key (Y, N) for digit strings Y and N, leading zeros included |
| QuarterKey.QuarterLabelRoundTrip | aeon-segment-quarterly-analysis/app.py:72-76 | the label FY<year>-<quarter>Q reads back as (year, quarter) |
| QuarterKey.ExtraPartsIgnored | aeon-segment-quarterly-analysis/app.py:73-76 | only the first two '-' parts count: appending "-anything" to a label with a '-' keeps its key |
| QuarterKey.AnnualLabelKey | aeon-segment-quarterly-analysis/app.py:77-78 | "FY<Y>" without a '-' has the key (Y, 0) |
| QuarterKey.AnnualLabelRoundTrip | aeon-segment-quarterly-analysis/app.py:77-78 | the annual label FY<year> reads back as (year, 0) |
| QuarterKey.EmptyYearFallsBack | aeon-segment-quarterly-analysis/app.py:71-80 | an empty year part, "FY-…", makes int() raise, and the key is (0, 0) |
| QuarterKey.NoDigitsFallsBack | aeon-segment-quarterly-analysis/app.py:71-80 | a label without any digit (so a non-numeric remnant) has the key (0, 0), with or without a '-' |
| QuarterKey.QuarterWithoutDigitsFallsBack | aeon-segment-quarterly-analysis/app.py:73-80 | a missing or digit-free quarter part ("FY2023-", "FY2023-Q") gives (0, 0) whatever the year |
| QuarterKey.LabelsOrderChronologically | aeon-segment-quarterly-analysis/app.py:69-80 | quarter labels compare by key exactly when (year, quarter) compare; an annual label sorts before its year's quarters; a digit-free label sorts before every quarter label |
| QuarterKey.KeyLe | aeon-segment-quarterly-analysis/app.py:124 | tuple `<=` on (year, quarter) is reflexive and never puts a later year before an earlier one |
| Text.ParseInt | aeon-segment-quarterly-analysis/app.py:75-78 | int() of a blank or whitespace-only text raises (None) |
| Text.Strip | aeon-segment-quarterly-analysis/app.py:87 | str.strip leaves no whitespace at either end, keeps only characters of the input and never lengthens it |
| Text.RemoveAll | aeon-segment-quarterly-analysis/app.py:87 | str.replace(pat, "") never lengthens the text |
| Text.RemoveCharGone | aeon-segment-quarterly-analysis/app.py:87 | after `replace(',', '')` no ',' is left in the text |
| Text.Split | aeon-segment-quarterly-analysis/app.py:73 | str.split always yields at least one part |
| Text.StrLe | aeon-segment-quarterly-analysis/app.py:124 | the code-point order on str extends the prefix order: a prefix sorts first |
| Text.ParseIntDigits | aeon-segment-quarterly-analysis/app.py:75-76 | int() of a digit string is its decimal value |
| Text.ParseIntNoDigits | aeon-segment-quarterly-analysis/app.py:75-78 | int() of a text without digits raises (None) |
| Text.ParseShowInt | aeon-segment-quarterly-analysis/app.py:75-78 | int(str(n)) == n for every integer n within CPython's 4300-digit limit; the model's parser has no limit |
| Text.SplitJoinInverse | aeon-segment-quarterly-analysis/app.py:73 | joining the parts of `split(sep)` with sep gives back the string |
| Text.SplitCount | aeon-segment-quarterly-analysis/app.py:73-74 | `split` yields a second part exactly when the separator occurs, so a label with '-' always has `parts[1]` |
| Text.SplitPartsLackSep | aeon-segment-quarterly-analysis/app.py:73 | no part of `split(sep)` contains the separator |
| Text.SplitJoin | aeon-segment-quarterly-analysis/app.py:73 | splitting the join of separator-free parts gives back exactly those parts |
| Numeric.ConvertToNumeric | aeon-segment-quarterly-analysis/app.py:83-90 | the result has one value per cell, and a column that is not text is returned unchanged |
| Numeric.ParseNumber | aeon-segment-quarterly-analysis/app.py:86-88 | to_numeric of the empty text is not a number |
| Numeric.CellValue | aeon-segment-quarterly-analysis/app.py:86-89 | a cell that is empty once its ','s and surrounding whitespace are gone becomes 0 |
| Numeric.ParseNumberDigits | aeon-segment-quarterly-analysis/app.py:85-88 | to_numeric of a plain digit string is its value |
| Numeric.ParseNumberSigned | aeon-segment-quarterly-analysis/app.py:85-88 | to_numeric of a sign and digits is the signed value |
| Numeric.ParseNumberDecimal | aeon-segment-quarterly-analysis/app.py:85-88 | "<i>.<f>" with at least one digit parses to i + f / 10^len(f) |
| Numeric.ParseNumberNoDigits | aeon-segment-quarterly-analysis/app.py:85-88 | a text without digits is not a number |
| Numeric.CellValueNoDigits | aeon-segment-quarterly-analysis/app.py:85-89 | a cell without digits ("", "-", "nan", "N/A") becomes 0 through errors='coerce' and fillna(0) |
| Numeric.UngroupedDigits | aeon-segment-quarterly-analysis/app.py:86-87 | removing the ','s of a thousands-grouped amount leaves the plain digits of that amount |
| Numeric.CellValueGrouped | aeon-segment-quarterly-analysis/app.py:85-89 | a thousands-grouped amount with whitespace around it converts to that amount |
| Numeric.CellValueDigits | aeon-segment-quarterly-analysis/app.py:85-89 | any cell whose ','-free, stripped form is plain digits converts to their value |
| Numeric.CellValueNegative | aeon-segment-quarterly-analysis/app.py:85-89 | "-" followed by a grouped amount converts to the negative amount |
| Numeric.CellValueExampleGrouped | aeon-segment-quarterly-analysis/app.py:85-89 | "1,234" converts to 1234 |
| Numeric.CellValueExampleSpaced | aeon-segment-quarterly-analysis/app.py:85-89 | " 56 " converts to 56 |
| Numeric.ConvertGroupedColumn | aeon-segment-quarterly-analysis/app.py:83-90 | a text column of grouped amounts converts back to exactly those amounts, cell by cell |
| Numeric.ConvertNoDigitsCell | aeon-segment-quarterly-analysis/app.py:83-90 | in a converted text column, every cell without digits is 0 |
| Loader.QuarterlyIndices | aeon-segment-quarterly-analysis/app.py:111 | the kept positions are increasing, each holds a Q1–Q4 statement, and every Q1–Q4 position is kept |
| Loader.IsQuarterly | aeon-segment-quarterly-analysis/app.py:111 | only a two-character str starting with 'Q' can be one of Q1–Q4 |
| Loader.Filtered | aeon-segment-quarterly-analysis/app.py:111 | the filtered frame stays rectangular and keeps every amount column |
| Loader.Converted | aeon-segment-quarterly-analysis/app.py:115-117 | after conversion every amount column present is numeric, and no column is added or lost |
| Loader.RowsOf | aeon-segment-quarterly-analysis/app.py:123 | one row per position of the frame, each keyed by its own period's sort key |
| Loader.SegmentLe | aeon-segment-quarterly-analysis/app.py:124 | a blank (NaN) segment sorts after every name and only ties with another blank; every segment ties with itself |
| Loader.RowLe | aeon-segment-quarterly-analysis/app.py:124 | rows ordered by (segment, key) are ordered by segment first |
| Loader.LoadedTable | aeon-segment-quarterly-analysis/app.py:123-124 | the loaded table is a permutation of the keyed quarterly rows |
| Loader.LoadSegmentData | aeon-segment-quarterly-analysis/app.py:111-124 | the loop over the amount columns, then keying and sorting, yields the loaded table: ordered by (segment, key) and a permutation of the quarterly rows |
| Loader.RowLeTotalPreorder | aeon-segment-quarterly-analysis/app.py:124 | ordering by (segment, key), blank segments last, compares any two rows and is transitive |
| Loader.LoadedTableSorted | aeon-segment-quarterly-analysis/app.py:123-124 | the loaded table is ordered by (segment, key) and is a permutation of the prepared quarterly rows |
| Loader.LoadedTableStable | aeon-segment-quarterly-analysis/app.py:124 | rows tied on (segment, key) keep their file order |
| Loader.PreparedRowsArePicked | aeon-segment-quarterly-analysis/app.py:111-117 | converting after filtering gives the converted rows at the quarterly positions |
| Loader.LoadedOnlyQuarterly | aeon-segment-quarterly-analysis/app.py:111-124 | every loaded row is a Q1–Q4 statement, carries its own period's key, and has an amount for each amount column of the file |
| Loader.LoadedKeepsQuarterly | aeon-segment-quarterly-analysis/app.py:111 | no Q1–Q4 row of the file is dropped |
| Seqs.SortBy | aeon-segment-quarterly-analysis/app.py:124 | sorting returns a permutation of its input: the same elements, each as often as before |
| Seqs.SortBySorted | aeon-segment-quarterly-analysis/app.py:124 | under an order that compares any two values and is transitive, the sorted result is ordered |
| Seqs.SortByStable | aeon-segment-quarterly-analysis/app.py:124 | values tied under the order keep their input order, as pandas' stable multi-column sort keeps them |
| Seqs.Unique | aeon-segment-quarterly-analysis/app.py:139 | `unique()` lists each value once, exactly the values of the column, never more of them than rows |
| Seqs.UniqueFirstAppearance | aeon-segment-quarterly-analysis/app.py:139 | `unique()` lists values in order of first appearance: a value listed earlier occurs in the input before every occurrence of any later one |
| Seqs.Filter | aeon-segment-quarterly-analysis/app.py:157 | a boolean mask keeps exactly the matching elements and never keeps one more often than it occurs |
| Seqs.FilterCount | aeon-segment-quarterly-analysis/app.py:157 | a boolean mask keeps each matching element as often as it occurs, duplicates included, and drops the rest |
| Periods.RawQuartersSpec | aeon-segment-quarterly-analysis/app.py:139 | the period list holds each period of the table exactly once, and nothing else, in key order; periods that tie on the key keep the order of `unique()` |
| Periods.RawQuarters | aeon-segment-quarterly-analysis/app.py:139 | the period list is never longer than the table and is non-empty for a non-empty table |
| Periods.PeriodLe | aeon-segment-quarterly-analysis/app.py:139 | `key=sort_quarter_key`: periods with the same sort key tie |
| Periods.PeriodLeTotalPreorder | aeon-segment-quarterly-analysis/app.py:139 | ordering periods by their sort key compares any two periods and is transitive |
| Periods.IndexOf | aeon-segment-quarterly-analysis/app.py:150-151 | `list.index`: the position of the first occurrence |
| Periods.SelectQuarters | aeon-segment-quarterly-analysis/app.py:150-156 | an accepted choice is non-empty, starts with the start period and ends with the end period |
| Periods.SelectQuartersSpec | aeon-segment-quarterly-analysis/app.py:150-156 | the choice is rejected exactly when the start's index exceeds the end's; otherwise the slice runs from start to end, is end − start + 1 long, and holds exactly the periods at positions start..end |
| Periods.SelectedKeysBetween | aeon-segment-quarterly-analysis/app.py:139-156 | in the key-sorted list, every selected period's key lies between the start's and the end's |
| Periods.RowsInPeriods | aeon-segment-quarterly-analysis/app.py:157 | `isin` only keeps rows of the table, each at most as often as it occurs there |
| Periods.RowsInPeriodsSpec | aeon-segment-quarterly-analysis/app.py:157 | the filtered table holds exactly the rows whose period was selected, each as often as in the table, and keeps the table's (segment, key) order |
| Periods.FilteredRowsWithinRange | aeon-segment-quarterly-analysis/app.py:139-157 | on the loaded table, every row kept by a valid choice has a key between the start's and the end's |
| Growth.SelectionHasRevenue | aeon-segment-quarterly-analysis/app.py:115-157 | when the file has a revenue column, every row of every period selection carries a revenue amount |
| Growth.GrowthSegments | aeon-segment-quarterly-analysis/app.py:342 | no growth segment is `その他`, and there are no more segments than rows |
| Growth.GrowthSegmentsSpec | aeon-segment-quarterly-analysis/app.py:342 | the growth segments are distinct and are every segment of the selection except `その他` |
| Growth.SameSegment | aeon-segment-quarterly-analysis/app.py:346 | `==` on a segment cell: a blank (NaN) cell matches no segment, and a match is the same segment |
| Growth.SegmentRows | aeon-segment-quarterly-analysis/app.py:346 | a segment's rows come from the table |
| Growth.SegmentRowsSpec | aeon-segment-quarterly-analysis/app.py:346 | a segment's rows are exactly its rows in the table, each as often as there, in key order; a blank (NaN) segment has none |
| Growth.SegmentRowsKeepTableOrder | aeon-segment-quarterly-analysis/app.py:346 | on a table ordered by (segment, key), the per-segment sort by key changes nothing |
| Growth.BaseRowIsEarliest | aeon-segment-quarterly-analysis/app.py:346-348 | the base row has the smallest key of its segment |
| Growth.WithRatios | aeon-segment-quarterly-analysis/app.py:350 | the ratio column adds one entry per row and keeps the rows |
| Growth.SegmentGrowth | aeon-segment-quarterly-analysis/app.py:345-351 | a segment adds either nothing or every one of its rows |
| Growth.GrowthTable | aeon-segment-quarterly-analysis/app.py:342-351 | every entry of the growth table is a row of the selection |
| Growth.BuildGrowthTable | aeon-segment-quarterly-analysis/app.py:342-351 | the concat loop builds exactly the growth table of the specification |
| Growth.SegmentGrowthRow | aeon-segment-quarterly-analysis/app.py:345-351 | a segment adds nothing exactly when its base revenue is not positive, and otherwise adds all of its rows |
| Growth.GrowthOverRow | aeon-segment-quarterly-analysis/app.py:344-351 | after any prefix of the segments, the table holds exactly the rows of those segments whose base revenue is positive |
| Growth.GrowthOverRated | aeon-segment-quarterly-analysis/app.py:344-351 | each entry's ratio is its revenue over its segment's positive base revenue |
| Growth.GrowthTableRows | aeon-segment-quarterly-analysis/app.py:342-351 | the table holds a row exactly when the row's segment is not `その他` and has positive base revenue |
| Growth.GrowthExcludesOther | aeon-segment-quarterly-analysis/app.py:342 | `その他` never appears in the growth table |
| Growth.GrowthRatios | aeon-segment-quarterly-analysis/app.py:347-350 | each entry's segment has positive base revenue, its ratio times the base is its revenue, and the base row's ratio is 1 |
| Growth.RatedRatio | aeon-segment-quarterly-analysis/app.py:350 | a ratio of revenue over base multiplies back to the revenue and is 1 at the base row |
| Growth.Shifted | aeon-segment-quarterly-analysis/app.py:405 | `shift(1)` is missing (NaN) exactly at the first row, and is the previous row's value elsewhere |
| Growth.Change | aeon-segment-quarterly-analysis/app.py:404-405 | from a missing previous value the change is NaN; from a previous value of 0 it is infinite, or NaN when the current value is 0 too |
| Growth.ShiftedChanges | aeon-segment-quarterly-analysis/app.py:404-406 | the change column has one entry per row, and the first is NaN since shift(1) has no previous row |
| Growth.DetailChanges | aeon-segment-quarterly-analysis/app.py:404-407 | after the overwrite the column still has one entry per row and its first entry is NaN |
| Growth.FirstRowOverwriteRedundant | aeon-segment-quarterly-analysis/app.py:404-407 | overwriting the first change with NaN leaves the shifted-change column as it was |
| Growth.DetailRatios | aeon-segment-quarterly-analysis/app.py:397-401 | with a positive base, the ratios multiply back to the revenues and the first is 1; otherwise every ratio is 0 |
| Growth.RatioColumn | aeon-segment-quarterly-analysis/app.py:397-401 | filling the ratio column gives the ratios of the specification |
| Growth.ChangeColumn | aeon-segment-quarterly-analysis/app.py:404-407 | the shifted-change column, with its first row overwritten by NaN, gives the changes of the specification |
| Growth.DetailChangesSpec | aeon-segment-quarterly-analysis/app.py:404-407 | the first change is NaN; from a non-zero previous revenue, the change is the percentage that takes it to the current one; from 0 it is infinite or NaN |
| Growth.SegmentDetail | aeon-segment-quarterly-analysis/app.py:393-407 | the detail tab builds the detail view of the specification |
| Growth.DetailView | aeon-segment-quarterly-analysis/app.py:393-407 | the detail view has one line per row of the segment |
| Growth.DetailViewSpec | aeon-segment-quarterly-analysis/app.py:393-407 | the detail lists the segment's rows in key order; the first change is NaN; the first ratio is 1 when the base is positive, and every ratio is 0 otherwise |
| Growth.BlankSegmentSkipped | aeon-segment-quarterly-analysis/app.py:342-351 | a blank (NaN) segment equals no cell: it has no rows, adds nothing to the growth table and has an empty detail view |
| Growth.DetailExample | aeon-segment-quarterly-analysis/app.py:397-407 | revenues 100, 150, 300 give ratios 1, 1.5, 3 and changes NaN, +50 %, +100 % |

## Left out

- Reading the CSV file, the check that it exists, the encoding-fallback loop and `@st.cache_data` are I/O and framework caching. The model starts from the frame as read (`Loader.Frame`).
- The Streamlit UI is left out: sidebar widgets, tabs, `st.stop`, messages, download buttons and footer. The selectbox choices are parameters of `Periods.SelectQuarters`, and the stop is its `Failure(StartAfterEnd)` result.
- Plotting, `setup_font` and `get_html_report` are left out. They are rendering and foreign calls, and the report also reads the wall clock.
- `np.round` of the margin, the ratios and the percentages is floating-point rounding. The ratios and changes are exact reals here.
- The margin column (app.py:120) is only rounded, so no amount of it is modelled.
- `pivot_table`/`crosstab` aggregation, and the crosstab sorts, are library internals.
- Text.ParseInt: Python `int()` also accepts underscores between digits and non-ASCII Unicode digits. CPython (3.11 on, and the 3.7.14–3.10.7 security releases) also raises ValueError for more than 4300 digits (`sys.int_info.default_max_str_digits`). The model accepts ASCII digits of any length with one optional sign and surrounding whitespace.
- Numeric.ParseNumber: pandas `to_numeric` also accepts exponents, `inf`/`nan` spellings and other float syntax. The model parses an optional sign and decimal digits with at most one point.
- Numeric.ConvertToNumeric: NaN inside a column that is already numeric is left out. A blank cell of a text column is the string "nan", as `astype(str)` renders it, and so becomes 0.
- QuarterKey.QuarterLabelKey, QuarterKey.AnnualLabelKey and QuarterKey.LabelsOrderChronologically: they hold for years and quarters of any length. In CPython a year or quarter of more than 4300 digits makes `int()` raise, and the key falls back to (0, 0) (app.py:74-80).
- QuarterKey.SortQuarterKey: every cell that is not a str (a number, or the NaN of a blank period) is one value, `NonStr`. All of them get (0, 0) as in the source, but the model does not tell them apart in `unique` or `isin`.
- Periods.SelectQuarters: requires the start and the end to be periods of the list. When the loaded table has no Q1–Q4 row, the list is empty, the sidebar offers nothing and the source raises ValueError at app.py:150 (`raw_quarters.index`). The model excludes that case by this requirement.
- Growth.SegmentRows: `sort_values('ソートキー')` on one column uses pandas' default quicksort, which is not stable. The model uses the same stable sort as for the loaded table, so among rows tied on the key, the chosen base row may differ. `Growth.SegmentRowsKeepTableOrder` shows that on the loaded table the per-segment sort changes nothing.
- Growth.BuildGrowthTable: requires every row to carry a revenue amount (`HasRevenue`). Without a revenue column the program never reaches the growth loop: the overview tab's `pivot_table(values='営業収益')` at app.py:196 already raises KeyError. `Growth.SelectionHasRevenue` shows that the requirement holds whenever the file has that column.
- Growth.SegmentDetail: requires `HasRevenue` for the same reason as BuildGrowthTable.
- Loader.Frame: a segment cell is a name (str) or the NaN of a blank cell. Other non-str segment values, such as a number, are not modelled.
- Growth.Change: the floating-point sign of zero (-0.0) and overflow to infinity are not modelled.
