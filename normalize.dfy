/** The column normalisation of calruns_dashboard.py: each raw CSV row
    becomes a typed record (year, month number and name, steps, ascent,
    elapsed time, pace), and one malformed value aborts the whole load. */
module Normalize {
  import opened Wrappers
  import opened Text
  import Duration
  import Pace

  /** One CSV row as the reader hands it over. Distance is already numeric
      (a fixed-point integer here); the other fields are text. */
  datatype RawRow = RawRow(
    date: string,
    distance: int,
    time: string,
    steps: string,
    totalAscent: string,
    avgPace: string)

  /** One normalised row; `time` is in tenths of a second, `pace` in whole
      seconds per distance unit. */
  datatype Record = Record(
    year: int,
    monthInt: int,
    month: string,
    distance: int,
    steps: int,
    ascent: int,
    time: int,
    pace: int)

  /** The derived columns, in the order the script computes them. */
  datatype Column = Year | MonthInt | Month | Steps | TotalAscent | Time | SecondsPace

  function ColumnRank(c: Column): nat
  {
    match c
    case Year => 0
    case MonthInt => 1
    case Month => 2
    case Steps => 3
    case TotalAscent => 4
    case Time => 5
    case SecondsPace => 6
  }

  /** calendar.month_name: thirteen entries, the first of them empty. */
  const MonthNames: seq<string> := ["", "January", "February", "March", "April", "May", "June",
    "July", "August", "September", "October", "November", "December"]

  /** calendar.month_name[m], with Python's negative indexing; any other
      index raises. */
  function MonthName(m: int): (r: Option<string>)
    ensures r.Some? <==> -13 <= m <= 12
    ensures r.Some? ==> r.value in MonthNames
  {
    if 0 <= m <= 12 then Some(MonthNames[m])
    else if -13 <= m < 0 then Some(MonthNames[m + 13])
    else None
  }

  /** The Year column: int(Date[:4]). An empty date has none; four
      leading digits give their value. */
  function DateYear(date: string): (r: Option<int>)
    ensures date == [] ==> r.None?
    ensures |date| >= 4 && AllDigits(date[..4]) ==> r == Some(DigitsValue(date[..4]))
  {
    SliceDigits(date, 0, 4);
    ParseInt(Slice(date, 0, 4))
  }

  /** The Month_int column: int(Date[5:7]). A date of five characters or
      fewer has none; two digits at offsets 5-6 give their value. */
  function DateMonth(date: string): (r: Option<int>)
    ensures |date| <= 5 ==> r.None?
    ensures |date| >= 7 && AllDigits(date[5..7]) ==> r == Some(DigitsValue(date[5..7]))
  {
    SliceDigits(date, 5, 7);
    ParseInt(Slice(date, 5, 7))
  }

  /** A slice of digits that lies inside the text reads as their value. */
  lemma SliceDigits(date: string, lo: nat, hi: nat)
    ensures lo < hi <= |date| && AllDigits(date[lo..hi]) ==>
      ParseInt(Slice(date, lo, hi)) == Some(DigitsValue(date[lo..hi]))
  {
    if lo < hi <= |date| && AllDigits(date[lo..hi]) {
      assert Slice(date, lo, hi) == date[lo..hi];
      DigitsParse(date[lo..hi]);
    }
  }

  /** Steps: thousands separators removed, then int(). Text without a
      separator is read by int() as it is, so plain digits give their value. */
  function ParseSteps(text: string): (r: Option<int>)
    ensures ',' !in text ==> r == ParseInt(text)
    ensures 1 <= |text| && AllDigits(text) ==> r == Some(DigitsValue(text))
  {
    if 1 <= |text| && AllDigits(text) then
      AllDigitsExclude(text, ',');
      DigitsParse(text);
      ParseInt(RemoveAll(text, ','))
    else
      ParseInt(RemoveAll(text, ','))
  }

  /** Total Ascent: the whole value "--" replaced by "0" first, then the
      separators removed, then int(). Apart from the sentinel it is read
      as Steps is. */
  function ParseAscent(text: string): (r: Option<int>)
    ensures text == "--" ==> r == Some(0)
    ensures text != "--" ==> r == ParseSteps(text)
  {
    assert AllDigits("0") by { assert "0"[..0] == []; }
    ParseInt(RemoveAll(if text == "--" then "0" else text, ','))
  }

  /** Whether computing column c fails on this row. The Month column is
      reached only when Month_int was computed. */
  predicate ColumnFails(row: RawRow, c: Column)
  {
    match c
    case Year => DateYear(row.date).None?
    case MonthInt => DateMonth(row.date).None?
    case Month => DateMonth(row.date).Some? && MonthName(DateMonth(row.date).value).None?
    case Steps => ParseSteps(row.steps).None?
    case TotalAscent => ParseAscent(row.totalAscent).None?
    case Time => Duration.TimeToTenths(row.time).None?
    case SecondsPace => Pace.PaceToSeconds(row.avgPace).None?
  }

  /** One row through every derived column, in column order. It succeeds
      exactly when no column fails, each field then holding its column's
      value; otherwise the first failing column in column order is
      reported. */
  function NormalizeRow(row: RawRow): (r: Result<Record, Column>)
    ensures r.Err? ==> ColumnFails(row, r.error)
    ensures r.Err? ==> forall c :: ColumnRank(c) < ColumnRank(r.error) ==> !ColumnFails(row, c)
    ensures r.Ok? ==> forall c :: !ColumnFails(row, c)
    ensures r.Ok? ==> r.value.month in MonthNames && r.value.distance == row.distance
    ensures r.Ok? ==> MonthName(r.value.monthInt) == Some(r.value.month)
    ensures r.Ok? ==>
      && DateYear(row.date) == Some(r.value.year)
      && DateMonth(row.date) == Some(r.value.monthInt)
      && ParseSteps(row.steps) == Some(r.value.steps)
      && ParseAscent(row.totalAscent) == Some(r.value.ascent)
      && Duration.TimeToTenths(row.time) == Some(r.value.time)
      && Pace.PaceToSeconds(row.avgPace) == Some(r.value.pace)
  {
    match DateYear(row.date)
    case None => Err(Year)
    case Some(year) =>
      match DateMonth(row.date)
      case None => Err(MonthInt)
      case Some(monthInt) =>
        match MonthName(monthInt)
        case None => Err(Month)
        case Some(month) =>
          match ParseSteps(row.steps)
          case None => Err(Steps)
          case Some(steps) =>
            match ParseAscent(row.totalAscent)
            case None => Err(TotalAscent)
            case Some(ascent) =>
              match Duration.TimeToTenths(row.time)
              case None => Err(Time)
              case Some(time) =>
                match Pace.PaceToSeconds(row.avgPace)
                case None => Err(SecondsPace)
                case Some(pace) => Ok(Record(year, monthInt, month, row.distance, steps, ascent, time, pace))
  }

  /** Which column failed, and on which row. */
  datatype LoadError = LoadError(column: Column, row: nat)

  predicate AtOrBefore(a: LoadError, b: LoadError)
  {
    ColumnRank(a.column) < ColumnRank(b.column) || (a.column == b.column && a.row <= b.row)
  }

  /** The outcome of normalising each row. */
  function Outcomes(rows: seq<RawRow>): (r: seq<Result<Record, Column>>)
    ensures |r| == |rows|
    ensures forall i :: 0 <= i < |rows| ==> r[i] == NormalizeRow(rows[i])
  {
    seq(|rows|, i requires 0 <= i < |rows| => NormalizeRow(rows[i]))
  }

  /** The error raised when the columns are computed one at a time over the
      first n outcomes: the earliest failing column, at its first failing row. */
  predicate FirstFailure<T>(outcomes: seq<Result<T, Column>>, n: nat, e: LoadError)
    requires n <= |outcomes|
  {
    && e.row < n
    && outcomes[e.row] == Err(e.column)
    && forall j :: 0 <= j < n && outcomes[j].Err? ==> AtOrBefore(e, LoadError(outcomes[j].error, j))
  }

  /** The error of a column-major computation over all rows: a failing
      column at a row where it fails, and no failure of an earlier column
      anywhere, nor of the same column at an earlier row. */
  predicate ColumnMajorError(rows: seq<RawRow>, e: LoadError)
  {
    && e.row < |rows|
    && ColumnFails(rows[e.row], e.column)
    && forall j, c :: 0 <= j < |rows| && ColumnFails(rows[j], c) ==> AtOrBefore(e, LoadError(c, j))
  }

  /** The earliest per-row outcome is the column-major error. */
  lemma FirstFailureIsColumnMajor(rows: seq<RawRow>, e: LoadError)
    requires FirstFailure(Outcomes(rows), |rows|, e)
    ensures ColumnMajorError(rows, e)
  {
    var outcomes := Outcomes(rows);
    forall j, c | 0 <= j < |rows| && ColumnFails(rows[j], c)
      ensures AtOrBefore(e, LoadError(c, j))
    {
      assert outcomes[j] == NormalizeRow(rows[j]);
      RowFailureBound(rows[j], c);
    }
  }

  /** A failing column is never before the column a row reports. */
  lemma RowFailureBound(row: RawRow, c: Column)
    requires ColumnFails(row, c)
    ensures NormalizeRow(row).Err?
    ensures NormalizeRow(row).error == c || ColumnRank(NormalizeRow(row).error) < ColumnRank(c)
  {
  }

  /** All values when every outcome succeeded, else the error FirstFailure
      describes. */
  method Collect<T>(outcomes: seq<Result<T, Column>>) returns (res: Result<seq<T>, LoadError>)
    ensures res.Ok? <==> forall i :: 0 <= i < |outcomes| ==> outcomes[i].Ok?
    ensures res.Ok? ==> |res.value| == |outcomes|
    ensures res.Ok? ==> forall i :: 0 <= i < |outcomes| ==> outcomes[i] == Ok(res.value[i])
    ensures res.Err? ==> FirstFailure(outcomes, |outcomes|, res.error)
  {
    var values: seq<T> := [];
    var failure: Option<LoadError> := None;
    for i := 0 to |outcomes|
      invariant failure.None? ==> |values| == i
      invariant failure.None? ==> forall j :: 0 <= j < i ==> outcomes[j] == Ok(values[j])
      invariant failure.Some? ==> FirstFailure(outcomes, i, failure.value)
    {
      var r := outcomes[i];
      if r.Ok? {
        if failure.None? {
          values := values + [r.value];
        }
      } else if failure.None? || ColumnRank(r.error) < ColumnRank(failure.value.column) {
        failure := Some(LoadError(r.error, i));
      }
    }
    if failure.Some? {
      res := Err(failure.value);
    } else {
      res := Ok(values);
    }
  }

  /** The module-level normalisation: every row or nothing. */
  method Load(rows: seq<RawRow>) returns (res: Result<seq<Record>, LoadError>)
    ensures res.Ok? <==> forall i :: 0 <= i < |rows| ==> NormalizeRow(rows[i]).Ok?
    ensures res.Ok? ==> |res.value| == |rows|
    ensures res.Ok? ==> forall i :: 0 <= i < |rows| ==> NormalizeRow(rows[i]) == Ok(res.value[i])
    ensures res.Err? ==> FirstFailure(Outcomes(rows), |rows|, res.error)
    ensures res.Err? ==> ColumnMajorError(rows, res.error)
  {
    res := Collect(Outcomes(rows));
    if res.Err? {
      FirstFailureIsColumnMajor(rows, res.error);
    }
  }

  /** A reference spelling of a count with thousands separators: "1,234,567". */
  function ThousandsText(n: nat): string
  {
    if n < 1000 then NatToString(n)
    else ThousandsText(n / 1000) + "," + ZeroPad(NatToString(n % 1000), 3)
  }

  lemma {:induction false} ThousandsDigits(n: nat)
    ensures var t := RemoveAll(ThousandsText(n), ',');
      1 <= |t| && AllDigits(t) && DigitsValue(t) == n
  {
    if n >= 1000 {
      var head := ThousandsText(n / 1000);
      var tail := ZeroPad(NatToString(n % 1000), 3);
      assert ThousandsText(n) == head + "," + tail;
      ThousandsDigits(n / 1000);
      GroupDigits(n % 1000);
      SeparatorRemoved(head, tail);
      JoinGroups(RemoveAll(head, ','), tail, n / 1000, n % 1000, n);
    } else {
      AllDigitsExclude(NatToString(n), ',');
    }
  }

  /** A group of three digits after a separator. */
  lemma GroupDigits(g: nat)
    requires g < 1000
    ensures var tail := ZeroPad(NatToString(g), 3);
      |tail| == 3 && AllDigits(tail) && DigitsValue(tail) == g && RemoveAll(tail, ',') == tail
  {
    AllDigitsExclude(ZeroPad(NatToString(g), 3), ',');
  }

  lemma JoinGroups(h: string, tail: string, hv: nat, tv: nat, v: nat)
    requires AllDigits(h) && AllDigits(tail) && |tail| == 3 && 1 <= |h|
    requires DigitsValue(h) == hv && DigitsValue(tail) == tv && v == hv * 1000 + tv
    ensures 1 <= |h + tail| && AllDigits(h + tail) && DigitsValue(h + tail) == v
  {
    DigitsValueConcat(h, tail);
    assert Pow10(3) == 1000;
  }

  /** Removing separators from `a,b` is removing them from `a` and `b`. */
  lemma SeparatorRemoved(a: string, b: string)
    ensures RemoveAll(a + "," + b, ',') == RemoveAll(a, ',') + RemoveAll(b, ',')
  {
    RemoveAllConcat(a + ",", b, ',');
    RemoveAllConcat(a, ",", ',');
    assert RemoveAll(",", ',') == [] by { assert ","[1..] == []; }
    assert RemoveAll(a, ',') + [] == RemoveAll(a, ',');
  }

  /** Steps and Total Ascent written with thousands separators read as
      their value. */
  lemma SeparatedCounts(n: nat)
    ensures ParseSteps(ThousandsText(n)) == Some(n)
    ensures ParseAscent(ThousandsText(n)) == Some(n)
  {
    ThousandsDigits(n);
    var t := RemoveAll(ThousandsText(n), ',');
    DigitsParse(t);
    assert t != "--" by { AllDigitsAt(t, 0); }
    assert RemoveAll("--", ',') == "--";
  }

  /** A separator anywhere in Steps is ignored. */
  lemma StepsIgnoreSeparators(a: string, b: string)
    ensures ParseSteps(a + "," + b) == ParseSteps(a + b)
  {
    SeparatorRemoved(a, b);
    RemoveAllConcat(a, b, ',');
  }

  /** The sentinel "--" is the value zero. */
  lemma AscentSentinel()
    ensures ParseAscent("--") == Some(0)
  {
    assert RemoveAll("0", ',') == "0";
    DigitsParse("0");
  }

  /** "--," is not the sentinel, and once its separator is removed the
      remaining "--" is not a number. */
  lemma AscentSentinelIsWholeValue()
    ensures ParseAscent("--,") == None
  {
    var s := "--,";
    assert s != "--";
    assert s == "--" + "," + [];
    SeparatorRemoved("--", []);
    assert RemoveAll([], ',') == [];
    assert RemoveAll("--", ',') == "--";
    StepsOfDashes(s);
  }

  lemma StepsOfDashes(s: string)
    requires RemoveAll(s, ',') == "--"
    ensures ParseSteps(s) == None
  {
    assert ParseInt("--") == None by { assert !IsDigit('-'); }
  }

  /** "1,234" is one thousand two hundred and thirty-four. */
  lemma AscentWithSeparator()
    ensures ParseAscent("1,234") == Some(1234)
  {
    assert 1234 / 1000 == 1 && 1234 % 1000 == 234;
    var head, tail := NatToString(1), NatToString(234);
    assert head == "1";
    assert tail == "234" by {
      assert NatToString(23) == "23" by { assert NatToString(2) == "2"; }
    }
    assert ZeroPad(tail, 3) == tail;
    assert ThousandsText(1234) == ThousandsText(1) + "," + ZeroPad(tail, 3);
    assert ThousandsText(1) == head;
    assert head + "," + tail == "1,234";
    SeparatedCounts(1234);
  }

  /** For an ISO date "YYYY-MM-...", Year and Month_int are the values of
      the digits at fixed offsets 0-3 and 5-6. */
  lemma IsoDateColumns(y: string, m: string, rest: string)
    requires |y| == 4 && AllDigits(y) && |m| == 2 && AllDigits(m)
    ensures DateYear(y + "-" + m + rest) == Some(DigitsValue(y))
    ensures DateMonth(y + "-" + m + rest) == Some(DigitsValue(m))
    ensures 0 <= DigitsValue(m) <= 99
  {
    var date := y + "-" + m + rest;
    assert Slice(date, 0, 4) == y;
    assert Slice(date, 5, 7) == m;
    DigitsParse(y);
    DigitsParse(m);
    assert DigitsValue(m) == DigitsValue(m[..1]) * 10 + DigitValue(m[1]);
  }

  /** A date too short to hold a month has no Month_int; month 00 is the
      empty name, and months past 12 have none. */
  lemma MonthEdges()
    ensures DateMonth("2024") == None
    ensures MonthName(0) == Some("")
    ensures MonthName(13) == None
    ensures MonthName(-1) == Some("December")
  {
    assert Slice("2024", 5, 7) == [];
  }
}
