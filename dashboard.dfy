/** The whole data preparation of calruns_dashboard.py: the rows read from
    the CSV file are normalised column by column, then grouped into the
    monthly table and sorted for the heatmap. */
module Dashboard {
  import opened Wrappers
  import Normalize
  import Monthly

  predicate AllNormalize(raw: seq<Normalize.RawRow>)
  {
    forall i :: 0 <= i < |raw| ==> Normalize.NormalizeRow(raw[i]).Ok?
  }

  /** The normalised records, when every row normalises. */
  function Records(raw: seq<Normalize.RawRow>): (recs: seq<Monthly.Record>)
    requires AllNormalize(raw)
    ensures |recs| == |raw|
    ensures forall r :: r in recs ==> r.month in Normalize.MonthNames
  {
    seq(|raw|, i requires 0 <= i < |raw| => Normalize.NormalizeRow(raw[i]).value)
  }

  /** Normalisation followed by the monthly table. A malformed value stops
      the script before any table exists, reported at the earliest failing
      column and its first failing row; otherwise the table has one row
      per (Year, Month) of the records, each the aggregate of its group,
      in strictly increasing (Year, calendar month) order, and the summed
      columns keep the totals of the records. */
  method PrepareMonthly(raw: seq<Normalize.RawRow>) returns (res: Result<seq<Monthly.MonthlyRow>, Normalize.LoadError>)
    ensures res.Ok? <==> AllNormalize(raw)
    ensures res.Err? ==> Normalize.FirstFailure(Normalize.Outcomes(raw), |raw|, res.error)
    ensures res.Err? ==> Normalize.ColumnMajorError(raw, res.error)
    ensures res.Ok? ==>
      var recs := Records(raw);
      var rows := res.value;
      && (forall row :: row in rows ==> Monthly.RowOfGroup(recs, row))
      && Monthly.RowKeys(rows) == Monthly.RecordKeys(recs)
      && (forall i, j :: 0 <= i < j < |rows| ==> Monthly.RowKey(rows[i]) != Monthly.RowKey(rows[j]))
      && (forall i, j :: 0 <= i < j < |rows| ==>
            rows[i].year < rows[j].year ||
            (rows[i].year == rows[j].year && Monthly.CalendarRank(rows[i].month) < Monthly.CalendarRank(rows[j].month)))
      && (forall m :: Monthly.SumRows(rows, m) == Monthly.SumOf(recs, m))
  {
    var loaded := Normalize.Load(raw);
    match loaded
    case Err(e) =>
      res := Err(e);
    case Ok(recs) =>
      assert recs == Records(raw);
      var rows := Monthly.Summarize(recs);
      Monthly.DistinctKeysPairs(rows);
      RecordMonthsAreNames(recs);
      Monthly.RowMonths(recs, rows, Monthly.MonthNameValue);
      Monthly.SortedStrict(rows);
      res := Ok(rows);
  }

  /** Every record's month is one of the twelve names or the empty one. */
  lemma RecordMonthsAreNames(recs: seq<Monthly.Record>)
    requires forall r :: r in recs ==> r.month in Normalize.MonthNames
    ensures forall r :: r in recs ==> Monthly.MonthNameValue(r.month)
  {
    forall r | r in recs
      ensures Monthly.MonthNameValue(r.month)
    {
      Monthly.MonthNameValues(r.month);
    }
  }

}
