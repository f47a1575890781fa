# Running dashboard: data preparation

This project models the data pipeline of `calruns_dashboard.py`, a
personal running dashboard. The script reads one CSV row per run and
normalises each column:

- the year and month number are fixed-offset slices of the date;
- the month name comes from `calendar.month_name`;
- Steps and Total Ascent have their thousands separators removed;
- the Total Ascent sentinel `--` counts as zero;
- the elapsed time `H:MM:SS[.f]` becomes seconds;
- the pace `M:SS` becomes seconds.

The runs are then grouped into one row per (Year, Month). Each row holds:

- the summed distance, time, ascent and steps;
- the longest distance ("Long");
- the mean pace.

Two text columns are derived from each row: the total time as `HH:MM:SS`
and the mean pace as `M:SS`. The table is sorted by year and then by
calendar month, and the user picks the statistic that colours the heatmap
from a six-entry table.

Modules:

- `Wrappers`: `Option` and `Result`. These stand in for the exceptions that
  `int()`, `float()` and indexing raise.
- `Text`: the parts of Python's string handling the script relies on:
  - `int()` and `str()` on decimal text;
  - zero-padding format specifiers;
  - `str.split`;
  - `str.replace(c, '')`;
  - clamped slicing.
- `Duration`: `time_to_seconds` and `seconds_to_time`. Durations are
  integer tenths of a second, so the fractional-seconds branch is kept
  exactly.
- `Pace`: the pace parser, the `M:SS` formatter, and the display of a
  fractional mean pace.
- `Normalize`: per-row column normalisation, and the load of a whole file,
  which fails as soon as one value is malformed.
- `Monthly`:
  - the group-by, as a method that loops over the records and accumulates
    into a map keyed by (Year, Month);
  - the rows built from the groups and insertion-sorted on
    (Year, calendar position);
  - the aggregate functions, with the lemmas about them.
- `Stats`: the statistic labels and `stats_dict`.
- `Dashboard`: normalisation followed by the monthly table.

Where the code and its documentation differ, the model follows the code,
with one exception: the Display_Time column is written by the corrected
time formatter (see "## Findings"). The formatter as written is modelled
beside it, and the two are proved to agree exactly on whole seconds.
Otherwise:

- Extra `:` fields are ignored. `time_to_seconds` and the pace parser
  never read beyond fields 3 and 2, so `"1:02:03:04"` parses as
  `1:02:03`; it is not rejected.
- The displayed mean pace is the floor of the mean, not a rounding of it:
  `int(x // 60)` and `int(x % 60)` truncate.
- The month name is looked up in `calendar.month_name`. That sequence has
  13 entries, and its first entry is the empty string, so:
  - month `00` gives the name `""`;
  - with Python's negative indexing, months `-13` to `-1` give names too;
  - only the other numbers fail.
- The empty name is not one of the twelve ordered categories. It becomes
  a missing value and sorts after December.
- The sentinel replacement `Series.replace('--', '0')` matches whole
  values only, and it runs before the separators are removed. So `--,`
  fails to parse.
- The columns are computed one at a time over every row. So the error
  reported for a bad file is the first failing row of the earliest
  failing column. It is not simply the first bad row.

## Model

| member | source | states |
|---|---|---|
| Text.ParseInt | calruns_dashboard.py:16-17 | a text that `int()` accepts never contains ':', '.' or ',', so a parsed field is never a whole clock or decimal text; its values on digit strings and on `str(n)` are stated by DigitsParse and IntToString |
| Text.NatToString | calruns_dashboard.py:61 | `str(n)` of a non-negative n is a non-empty digit string whose value is n, one digit below 10, at most two below 100 and at most three below 1000, and it starts with '0' only for 0 |
| Text.DigitsParse | calruns_dashboard.py:16-17 | `int()` of a non-empty digit string is its decimal value |
| Text.DigitsValueConcat | calruns_dashboard.py:41 | the value of two digit strings written one after the other is the first value shifted by the length of the second, plus the second |
| Text.IntToString | calruns_dashboard.py:61 | `str(n)` of every integer reads back through `int()` as n; for n >= 0 it is digits without a leading zero, for n < 0 a '-' followed by such digits |
| Text.Pad2 | calruns_dashboard.py:31 | `{n:02}` of a non-negative n is at least two digits, exactly two below 100, zero-padded only up to two, and reads back as n |
| Text.Pad2Int | calruns_dashboard.py:31 | `{n:02}` of any integer, sign included, is at least two characters and reads back as n; for n >= 0 it is digits padded only up to two, for n < 0 a '-' followed by digits |
| Text.ZeroPad | calruns_dashboard.py:31-33 | a zero-padded number has the larger of its length and the width, stays all digits and keeps its value |
| Text.Split | calruns_dashboard.py:15 | `str.split` always yields at least one piece |
| Text.SplitPieces | calruns_dashboard.py:15 | a split yields two or more pieces only when the separator occurs |
| Text.SplitExcludes | calruns_dashboard.py:15 | no piece of a split contains the separator |
| Text.SplitNoSeparator | calruns_dashboard.py:15 | text without the separator splits into itself alone |
| Text.SplitThree | calruns_dashboard.py:15 | `a:b:c` with no ':' in a, b or c splits into exactly [a, b, c] |
| Text.SplitJoin | calruns_dashboard.py:15 | joining the pieces of a split with the separator gives back the original text |
| Text.SplitAtSeparator | calruns_dashboard.py:15 | splitting `a:rest`, where a has no ':', gives a followed by the pieces of rest |
| Text.RemoveAll | calruns_dashboard.py:41 | `replace(',', '')` deletes every ',' and keeps every other character, counted with multiplicity; it leaves text without one unchanged |
| Text.RemoveAllConcat | calruns_dashboard.py:41 | removing a character from a concatenation removes it from each part |
| Text.Slice | calruns_dashboard.py:37-38 | a clamped slice has the clamped length and agrees with the text position by position |
| Duration.TimeToTenths | calruns_dashboard.py:14-22 | `time_to_seconds` succeeds only on text with a ':' that splits into at least three fields |
| Duration.SecondsField | calruns_dashboard.py:18-21 | a seconds field without a '.' is read by `int()`, so its value is whole seconds |
| Duration.DecimalTenths | calruns_dashboard.py:19 | `float()` of a seconds field succeeds only when the field holds a '.' |
| Duration.SecondsText | calruns_dashboard.py:27-33 | the seconds field holds no ':'; it is two characters for whole seconds and exactly the width with a fraction |
| Duration.Clock | calruns_dashboard.py:31-33 | the clock text splits on ':' into exactly the hours, the two-digit minutes and the seconds field |
| Duration.TenthsToTimeAsWritten | calruns_dashboard.py:14-33 | `seconds_to_time` as written (`05.1f`) reads back through `time_to_seconds` as the duration, for every integer number of tenths, negative ones and hour fields of three or more digits included |
| Duration.TenthsToTime | calruns_dashboard.py:14-33 | the corrected formatter (`04.1f`) reads back the same way |
| Duration.ClockRoundTrip | calruns_dashboard.py:14-33 | for either seconds width, the clock text of a duration parses back to that duration |
| Duration.SecondsFieldOfText | calruns_dashboard.py:18-33 | a seconds field, whole or fractional, holds no ':' and reads back as its tenths |
| Duration.TimeFields | calruns_dashboard.py:23-33 | corrected `HH:MM:SS`: three fields; hours are `t div 3600`, at least two digits and zero-padded only up to two (a leading '-' for negative t); minutes are `(t mod 3600) div 60`, below 60, two digits; whole seconds are two digits; a fraction gives a four-character field of two digits, the point and the tenths digit |
| Duration.TimeFieldsAsWritten | calruns_dashboard.py:23-33 | `HH:MM:SS` as written: the same hour, minute and whole-second fields, but a fraction gives a five-character field of three digits, the point and the tenths digit |
| Duration.ClockShape | calruns_dashboard.py:23-33 | for a seconds width of 4 or 5, the clock text's three fields are spelled as ClockFields states: digit fields of the stated lengths reading as hours, minutes and seconds, and a fraction of width - 2 digits, the point and the tenths digit |
| Duration.FormattersAgree | calruns_dashboard.py:30-33 | the corrected and the as-written formatters give the same text exactly when the duration is whole seconds |
| Duration.AsWrittenExample | calruns_dashboard.py:33 | as written, 309.5 s is shown as `00:05:009.5` |
| Duration.CorrectedExample | calruns_dashboard.py:33 | with the corrected width, 309.5 s is shown as `00:05:09.5` |
| Duration.TimeOfIntegerFields | calruns_dashboard.py:14-22 | `"H:MM:SS"` with integer fields is `H*3600 + MM*60 + SS` seconds |
| Duration.ExtraFieldsIgnored | calruns_dashboard.py:15-22 | text after a third ':' does not change the result |
| Duration.TooFewFields | calruns_dashboard.py:15-18 | a time with only two fields is an error |
| Duration.FractionText | calruns_dashboard.py:18-19 | a fractional seconds field has a '.', no ':', reads back through `float()` as its tenths, and splits at the point into the digits of the whole seconds and the one tenths digit |
| Pace.PaceToSeconds | calruns_dashboard.py:45 | the pace parser succeeds only on text with a ':', split into at least two fields |
| Pace.SecondsToPace | calruns_dashboard.py:61 | `"{p//60}:{p%60:02d}"` has exactly two fields: the minutes read as `p div 60`, unpadded digits with no leading zero for p >= 0; the seconds read as `p mod 60`, always two digits |
| Pace.Minutes | calruns_dashboard.py:61 | Python's float `x // 60` is the integer quotient of the whole seconds of x by 60 |
| Pace.WithinMinute | calruns_dashboard.py:61 | Python's float `x % 60` lies in [0, 60), and its whole part is the whole seconds of x mod 60 |
| Pace.MeanPaceText | calruns_dashboard.py:61 | the Average_Pace text of a mean x reads back through the pace parser as the floor of x |
| Pace.PaceOfFields | calruns_dashboard.py:45 | `"M:SS"` with integer fields is `M*60 + SS` |
| Pace.PaceNeedsTwoFields | calruns_dashboard.py:45 | a pace without ':' is an error |
| Pace.PaceRoundTrip | calruns_dashboard.py:61 | `"{p//60}:{p%60:02d}"` reads back through the pace parser as p, for every integer p |
| Pace.MeanPaceTextFloor | calruns_dashboard.py:61 | the Average_Pace text of a mean x equals the `M:SS` of the whole seconds of x: the fraction is truncated, never rounded |
| Pace.FloorOfDivision | calruns_dashboard.py:61 | `x // 60` is the floor of x div 60, and `x % 60` lies in [0, 60) with floor equal to `floor(x) mod 60` |
| Pace.MeanFloor | calruns_dashboard.py:55 | the whole seconds of a mean of integers is the integer quotient of their sum by their count |
| Pace.PaceParseExample | calruns_dashboard.py:45 | "5:30" is 330 s |
| Pace.PaceFormatExample | calruns_dashboard.py:61 | 330 s is written "5:30" |
| Pace.MeanPaceExample | calruns_dashboard.py:61 | a mean of 330.9 s is shown as "5:30", not rounded up |
| Normalize.MonthName | calruns_dashboard.py:39 | `calendar.month_name[m]` exists exactly for -13 ≤ m ≤ 12, and its value is a month name or "" |
| Normalize.DateYear | calruns_dashboard.py:37 | `int(Date[:4])` fails on an empty date, and four leading digits give their value |
| Normalize.DateMonth | calruns_dashboard.py:38 | `int(Date[5:7])` fails on a date of five characters or fewer, and two digits at offsets 5-6 give their value |
| Normalize.ParseSteps | calruns_dashboard.py:41 | Steps without a ',' is read by `int()` as it is, so plain digits give their value |
| Normalize.ParseAscent | calruns_dashboard.py:42-43 | Total Ascent "--" is 0, and any other text is read exactly as Steps is |
| Normalize.NormalizeRow | calruns_dashboard.py:37-45 | a row normalises only when no column fails, and then each field is its column parser's value, the distance is kept and the month is the name of the month number; a failed row reports a failing column with no earlier column failing |
| Normalize.Collect | calruns_dashboard.py:37-45 | collecting the per-row outcomes succeeds exactly when every outcome succeeded, with the values in order; otherwise it returns the earliest failing column at its first failing row |
| Normalize.FirstFailureIsColumnMajor | calruns_dashboard.py:37-45 | the earliest per-row outcome is the error of the column-by-column computation: a column that fails there, with no earlier column failing on any row and no earlier row failing that column |
| Normalize.RowFailureBound | calruns_dashboard.py:37-45 | a row with a failing column fails itself, at that column or an earlier one |
| Normalize.Load | calruns_dashboard.py:37-45 | the load succeeds exactly when every row normalises, with one record per row in input order; otherwise the error is the earliest failing column at its first failing row, computed column by column over all rows |
| Normalize.ThousandsDigits | calruns_dashboard.py:41 | a count written with thousands separators is, once they are removed, a digit string with that count's value |
| Normalize.SeparatedCounts | calruns_dashboard.py:41-43 | Steps and Total Ascent written with thousands separators read as their value |
| Normalize.StepsIgnoreSeparators | calruns_dashboard.py:41 | a ',' anywhere in Steps does not change the value |
| Normalize.AscentSentinel | calruns_dashboard.py:42 | Total Ascent "--" is 0 |
| Normalize.AscentSentinelIsWholeValue | calruns_dashboard.py:42-43 | "--," is not the sentinel, and it fails once the separator is removed |
| Normalize.AscentWithSeparator | calruns_dashboard.py:43 | Total Ascent "1,234" is 1234 |
| Normalize.IsoDateColumns | calruns_dashboard.py:37-38 | for a date `YYYY-MM...`, Year is the value of characters 0-3 and Month_int is the value of characters 5-6 |
| Normalize.MonthEdges | calruns_dashboard.py:38-39 | a date too short for a month fails; month 0 is ""; month 13 fails; month -1 is December |
| Monthly.IndexOf | calruns_dashboard.py:62 | the result is the first position of the name, or the length when the name is absent |
| Monthly.CalendarRank | calruns_dashboard.py:62 | a month's sort position is its index in month_order; a name outside month_order gets position 12, after every category |
| Monthly.GroupTotals | calruns_dashboard.py:52-59 | a group that exists has at least one run |
| Monthly.MembersAreGroup | calruns_dashboard.py:52 | the members of a group are exactly the records with its (Year, Month) key |
| Monthly.GroupCount | calruns_dashboard.py:52-55 | a group exists exactly when it has members, and its run count is their number |
| Monthly.GroupSum | calruns_dashboard.py:53-58 | a group's Distance, Time, Elevation and Steps are the sums over its members |
| Monthly.GroupPace | calruns_dashboard.py:55 | a group's pace total is the sum of its members' paces |
| Monthly.GroupSums | calruns_dashboard.py:52-59 | a group exists exactly when it has members; its run count, pace total and four sums are those of its members |
| Monthly.GroupExists | calruns_dashboard.py:52 | a group exists exactly for the keys that occur in the records |
| Monthly.LongIsMax | calruns_dashboard.py:57 | Long is at least every member's distance |
| Monthly.LongIsAttained | calruns_dashboard.py:57 | Long equals some member's distance |
| Monthly.SumGroupsStep | calruns_dashboard.py:52-58 | one more record adds its value to the one group with its key, and to no other |
| Monthly.Conservation | calruns_dashboard.py:52-58 | over distinct keys that cover every record, the groups' sums add up to the sum over all records |
| Monthly.Insert | calruns_dashboard.py:63 | inserting a row adds exactly that row to the table, as a multiset |
| Monthly.InsertSorted | calruns_dashboard.py:63 | inserting a row into a table sorted by (Year, calendar position) keeps it sorted |
| Monthly.InsertKeys | calruns_dashboard.py:63 | inserting a row adds exactly its key, and keeps the keys distinct when the key is new |
| Monthly.InsertSums | calruns_dashboard.py:63 | inserting a row adds its values to every column sum |
| Monthly.DistinctKeysPairs | calruns_dashboard.py:52-59 | distinct keys means no two positions of the table share a (Year, Month) |
| Monthly.GroupBy | calruns_dashboard.py:52-59 | the accumulated map holds, for every key, exactly the group's aggregates `GroupTotals`, and the key list holds each key once |
| Monthly.Summarize | calruns_dashboard.py:52-63 | every row is its own group's aggregate; the rows' keys are exactly the records' keys, each once; rows are sorted by (Year, calendar position); the Distance, Time, Elevation and Steps columns add up to the totals over all records |
| Monthly.CalendarAgreement | calruns_dashboard.py:39-51 | `calendar.month_name` is "" followed by month_order; the name of month m in 1..12 is `month_order[m-1]`, at sort position m-1; "" sorts last |
| Monthly.MonthNameOrder | calruns_dashboard.py:39-51 | the name of month m in 1..12 is `month_order[m-1]` |
| Monthly.MonthNumberRank | calruns_dashboard.py:39-62 | the name of month m in 1..12 sits at sort position m-1 |
| Monthly.MonthNamesShape | calruns_dashboard.py:39-51 | `calendar.month_name` is "" followed by month_order, and "" is not a category |
| Monthly.MonthNameValues | calruns_dashboard.py:39-51 | a name is in `calendar.month_name` exactly when it is "" or has a sort position among the twelve categories |
| Monthly.CalendarOrderIsNumeric | calruns_dashboard.py:49-51 | for months 1..12, calendar position order is month-number order |
| Monthly.MonthOrderDistinct | calruns_dashboard.py:49-51 | the twelve categories are pairwise distinct |
| Monthly.RankInjective | calruns_dashboard.py:62 | two names from `calendar.month_name` with the same sort position are the same name |
| Monthly.SortedStrict | calruns_dashboard.py:62-63 | a sorted table with distinct keys and real month names is strictly increasing in (Year, calendar position) |
| Monthly.StrictPair | calruns_dashboard.py:62-63 | two rows in sort order with different keys and real month names are strictly ordered |
| Monthly.DecemberBeforeJanuary | calruns_dashboard.py:62-63 | (Y, December) sorts before (Y+1, January) and not after it |
| Monthly.AprilAfterMarch | calruns_dashboard.py:62-63 | in the sorted table April never precedes March of the same year |
| Monthly.RowOf | calruns_dashboard.py:52-59 | a group's row has the group's key, its four sums and its Long, and a mean pace that times the run count is the pace total |
| Monthly.DisplayTime | calruns_dashboard.py:60 | the Display_Time text, written by the corrected formatter, reads back as the row's Time |
| Monthly.AveragePace | calruns_dashboard.py:61 | the Average_Pace text reads back as the whole seconds of the mean pace |
| Monthly.RowLong | calruns_dashboard.py:57 | a row's Long is at least every member's distance and equals one of them |
| Monthly.RowPace | calruns_dashboard.py:55-61 | Seconds_Pace is the members' mean pace, and Average_Pace is the `M:SS` of (pace total div run count) |
| Monthly.RowDisplayTime | calruns_dashboard.py:60 | Display_Time and the as-written `seconds_to_time` text both read back as the row's Time, the sum of its members' times; the two texts are equal exactly when that total is whole seconds |
| Stats.NumericValue | calruns_dashboard.py:52-61 | exactly seven columns of the monthly table are numeric: Year, Distance, Time, Seconds_Pace, Elevation, Long and Steps |
| Stats.SelectedStat | calruns_dashboard.py:77-83 | `stats_dict[label]` is defined exactly for the six offered labels |
| Stats.EverySelectionIsNumeric | calruns_dashboard.py:75-83 | every offered label names a column that holds a number in every monthly row |
| Stats.AveragePaceSelectsSeconds | calruns_dashboard.py:79 | "Average Pace" colours by the numeric Seconds_Pace, not by the Average_Pace text; every other label is its own column |
| Stats.SelectionInjective | calruns_dashboard.py:77-83 | different labels select different columns |
| Stats.UnknownLabel | calruns_dashboard.py:83 | a label outside the table raises (no column) |
| Dashboard.Records | calruns_dashboard.py:37-45 | every normalised record has a month name from `calendar.month_name` |
| Dashboard.RecordMonthsAreNames | calruns_dashboard.py:39-51 | every record month is "" or one of the twelve sorted categories |
| Dashboard.PrepareMonthly | calruns_dashboard.py:36-63 | the pipeline fails exactly when some row fails to normalise, reporting the earliest failing column at its first failing row; otherwise it yields one row per (Year, Month), each its group's aggregate, strictly increasing in (Year, calendar position), with conserved column sums |

## Left out

- The Streamlit page, sidebar widgets, the year selector and the chart call (lines 8-12, 66-74, 84-88, 127-131): these are user interface, with no logic to model.
- `make_heatmap` (lines 94-122) and the `__main__` print (lines 135-136): these are chart construction and output in foreign libraries.
- `pd.read_csv` (line 36): file input. The model starts from rows already read, and the column type inference of the CSV reader is not modelled.
- The `data_year` filter (line 72): its result is never used.
- Normalize.RawRow: Distance is a fixed-point integer, not a `float`. So `astype(float)` and floating-point rounding of the Distance sum are not modelled. Only sums and maxima are taken of it.
- Duration.DecimalTenths: accepts only a sign, digits, a point and at most one fractional digit. `float()` also accepts more fractional digits, exponents, `_` digit separators, surrounding whitespace and `inf`/`nan`; for those seconds fields the model fails where the script would go on.
- Monthly.DisplayTime: written by the corrected formatter, so a fractional Time total shows two digits before the point where the script shows three (`00:05:09.5` for `00:05:009.5`). This is deliberate: the defect is recorded under "## Findings", and Monthly.RowDisplayTime relates the column to the as-written text.
- Integer width: every integer is unbounded. `astype(int)` in pandas raises OverflowError for values past the 64-bit range, and the int64 group sums of Steps and Elevation wrap around; the model does neither.
- Monthly.RowOf: the Time sum, the remainder test `remaining_seconds % 1 == 0` and the `.1f` rendering are exact on tenths. They are not modelled on floats, where a sum of fractional times can carry rounding error.
- Text.ParseInt: no leading or trailing whitespace, no `_` digit separators and no non-ASCII digits, all of which Python's `int()` accepts.
- Pandas internals: the group-by order before sorting, `reset_index` and the Categorical dtype. Monthly.Summarize states the sorted result directly, and the sort is modelled as an insertion sort on (Year, calendar position).

## Findings

| source | as written | input that shows it | evidently intended | confidence | as-written member | corrected member |
|---|---|---|---|---|---|---|
| calruns_dashboard.py:33 | `{remaining_seconds:05.1f}` counts the point and the fractional digit in the width of 5, so the seconds get three digits before the point | 309.5 seconds is formatted `00:05:009.5` | `00:05:09.5`: two digits before the point, like the other fields (width 4) | not executed | Duration.AsWrittenExample | Duration.CorrectedExample |
