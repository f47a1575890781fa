/** The monthly table of calruns_dashboard.py: records grouped by (Year,
    Month) with sums, a maximum and a mean per group, the two display
    columns derived from them, and the rows ordered by year and then by
    calendar month. */
module Monthly {
  import opened Wrappers
  import Normalize
  import Duration
  import Pace

  type Record = Normalize.Record

  /** month_order: the categories of the ordered Month column. */
  const MonthOrder: seq<string> := ["January", "February", "March", "April", "May", "June",
    "July", "August", "September", "October", "November", "December"]

  /** The first position of x in s, or |s| when x does not occur. */
  function IndexOf(s: seq<string>, x: string): (r: nat)
    ensures r <= |s|
    ensures r < |s| ==> s[r] == x && forall j :: 0 <= j < r ==> s[j] != x
    ensures r == |s| <==> x !in s
  {
    if s == [] then 0
    else if s[0] == x then 0
    else
      assert s == [s[0]] + s[1..];
      1 + IndexOf(s[1..], x)
  }

  /** The position of a month in the ordered categories. A name that is not
      a category (the empty name of month 00) becomes a missing value, and
      missing values sort after every category. */
  function CalendarRank(month: string): (r: nat)
    ensures r <= 12
    ensures r < 12 ==> MonthOrder[r] == month
    ensures r == 12 <==> month !in MonthOrder
  {
    IndexOf(MonthOrder, month)
  }

  /** A group key: the (Year, Month) pair. */
  datatype Key = Key(year: int, month: string)

  function KeyOf(r: Record): Key
  {
    Key(r.year, r.month)
  }

  /** The running aggregates of one group: the sums of Distance, Time,
      Seconds_Pace, Total Ascent and Steps, the number of runs, and the
      longest Distance. */
  datatype Totals = Totals(
    distance: int,
    time: int,
    paceSum: int,
    runs: nat,
    elevation: int,
    long: int,
    steps: int)

  function Start(r: Record): Totals
  {
    Totals(r.distance, r.time, r.pace, 1, r.ascent, r.distance, r.steps)
  }

  function Add(t: Totals, r: Record): Totals
  {
    Totals(t.distance + r.distance, t.time + r.time, t.paceSum + r.pace, t.runs + 1,
      t.elevation + r.ascent, if r.distance > t.long then r.distance else t.long,
      t.steps + r.steps)
  }

  /** The aggregates of group k after the records have been read in order,
      or None when no record belongs to k. */
  function GroupTotals(recs: seq<Record>, k: Key): (g: Option<Totals>)
    ensures g.Some? ==> g.value.runs >= 1
  {
    if recs == [] then None
    else
      var prev := GroupTotals(recs[..|recs| - 1], k);
      var last := recs[|recs| - 1];
      if KeyOf(last) != k then prev
      else
        match prev
        case None => Some(Start(last))
        case Some(t) => Some(Add(t, last))
  }

  /** The records of group k, in input order. */
  function Members(recs: seq<Record>, k: Key): seq<Record>
  {
    if recs == [] then []
    else
      var last := recs[|recs| - 1];
      Members(recs[..|recs| - 1], k) + (if KeyOf(last) == k then [last] else [])
  }

  /** The columns that are summed per group. */
  datatype Measure = Distance | Time | Elevation | Steps

  function RecordValue(r: Record, m: Measure): int
  {
    match m
    case Distance => r.distance
    case Time => r.time
    case Elevation => r.ascent
    case Steps => r.steps
  }

  function TotalsValue(t: Totals, m: Measure): int
  {
    match m
    case Distance => t.distance
    case Time => t.time
    case Elevation => t.elevation
    case Steps => t.steps
  }

  function SumOf(recs: seq<Record>, m: Measure): int
  {
    if recs == [] then 0 else SumOf(recs[..|recs| - 1], m) + RecordValue(recs[|recs| - 1], m)
  }

  function PaceTotal(recs: seq<Record>): int
  {
    if recs == [] then 0 else PaceTotal(recs[..|recs| - 1]) + recs[|recs| - 1].pace
  }

  function RecordKeys(recs: seq<Record>): set<Key>
  {
    set r | r in recs :: KeyOf(r)
  }

  lemma MembersSnoc(init: seq<Record>, last: Record, k: Key)
    ensures Members(init + [last], k) == Members(init, k) + (if KeyOf(last) == k then [last] else [])
  {
    assert (init + [last])[..|init|] == init;
  }

  lemma SumSnoc(init: seq<Record>, last: Record, m: Measure)
    ensures SumOf(init + [last], m) == SumOf(init, m) + RecordValue(last, m)
    ensures PaceTotal(init + [last]) == PaceTotal(init) + last.pace
  {
    assert (init + [last])[..|init|] == init;
  }

  /** The members of group k are exactly the records whose key is k. */
  lemma {:induction false} MembersAreGroup(recs: seq<Record>, k: Key)
    ensures forall r :: r in Members(recs, k) <==> r in recs && KeyOf(r) == k
  {
    if recs != [] {
      var init, last := recs[..|recs| - 1], recs[|recs| - 1];
      assert recs == init + [last];
      MembersAreGroup(init, k);
    }
  }

  lemma AddValue(t: Totals, r: Record, m: Measure)
    ensures TotalsValue(Add(t, r), m) == TotalsValue(t, m) + RecordValue(r, m)
    ensures TotalsValue(Start(r), m) == RecordValue(r, m)
  {
  }

  /** Reading one more record: it joins group k or leaves it as it was. */
  lemma GroupSnoc(init: seq<Record>, last: Record, k: Key)
    ensures GroupTotals(init + [last], k) ==
      if KeyOf(last) != k then GroupTotals(init, k)
      else if GroupTotals(init, k).None? then Some(Start(last))
      else Some(Add(GroupTotals(init, k).value, last))
    ensures Members(init + [last], k) == Members(init, k) + (if KeyOf(last) == k then [last] else [])
  {
    assert (init + [last])[..|init|] == init;
  }

  /** A group exists precisely when it has a member, and its run count is
      the number of its members. */
  lemma {:induction false} GroupCount(recs: seq<Record>, k: Key)
    ensures GroupTotals(recs, k).Some? <==> |Members(recs, k)| > 0
    ensures GroupTotals(recs, k).Some? ==> GroupTotals(recs, k).value.runs == |Members(recs, k)|
  {
    if recs != [] {
      var init, last := recs[..|recs| - 1], recs[|recs| - 1];
      assert recs == init + [last];
      GroupCount(init, k);
      GroupSnoc(init, last, k);
    }
  }

  /** The inductive step of GroupSum: one more record keeps the sum of
      group k equal to the sum over its members. */
  lemma GroupSumStep(init: seq<Record>, last: Record, k: Key, m: Measure)
    requires GroupTotals(init, k).None? ==> Members(init, k) == []
    requires GroupTotals(init, k).Some? ==> TotalsValue(GroupTotals(init, k).value, m) == SumOf(Members(init, k), m)
    ensures GroupTotals(init + [last], k).Some? ==>
      TotalsValue(GroupTotals(init + [last], k).value, m) == SumOf(Members(init + [last], k), m)
  {
    GroupSnoc(init, last, k);
    if KeyOf(last) == k {
      var before := Members(init, k);
      SumSnoc(before, last, m);
      if GroupTotals(init, k).None? {
        AddValue(Start(last), last, m);
      } else {
        AddValue(GroupTotals(init, k).value, last, m);
      }
    } else {
      assert Members(init + [last], k) == Members(init, k) + [];
      assert Members(init + [last], k) == Members(init, k);
    }
  }

  /** Each summed aggregate of a group is the sum over its members. */
  lemma {:induction false} GroupSum(recs: seq<Record>, k: Key, m: Measure)
    ensures GroupTotals(recs, k).Some? ==> TotalsValue(GroupTotals(recs, k).value, m) == SumOf(Members(recs, k), m)
  {
    if recs != [] {
      var init, last := recs[..|recs| - 1], recs[|recs| - 1];
      assert recs == init + [last];
      GroupSum(init, k, m);
      GroupCount(init, k);
      GroupSumStep(init, last, k, m);
      assert GroupTotals(recs, k) == GroupTotals(init + [last], k);
      assert Members(recs, k) == Members(init + [last], k);
    }
  }

  /** The inductive step of GroupPace. */
  lemma GroupPaceStep(init: seq<Record>, last: Record, k: Key)
    requires GroupTotals(init, k).None? ==> Members(init, k) == []
    requires GroupTotals(init, k).Some? ==> GroupTotals(init, k).value.paceSum == PaceTotal(Members(init, k))
    ensures GroupTotals(init + [last], k).Some? ==>
      GroupTotals(init + [last], k).value.paceSum == PaceTotal(Members(init + [last], k))
  {
    GroupSnoc(init, last, k);
    if KeyOf(last) == k {
      SumSnoc(Members(init, k), last, Distance);
    } else {
      assert Members(init + [last], k) == Members(init, k) + [];
      assert Members(init + [last], k) == Members(init, k);
    }
  }

  /** The Seconds_Pace total of a group is the pace total of its members. */
  lemma {:induction false} GroupPace(recs: seq<Record>, k: Key)
    ensures GroupTotals(recs, k).Some? ==> GroupTotals(recs, k).value.paceSum == PaceTotal(Members(recs, k))
  {
    if recs != [] {
      var init, last := recs[..|recs| - 1], recs[|recs| - 1];
      assert recs == init + [last];
      GroupPace(init, k);
      GroupCount(init, k);
      GroupPaceStep(init, last, k);
      assert GroupTotals(recs, k) == GroupTotals(init + [last], k);
      assert Members(recs, k) == Members(init + [last], k);
    }
  }

  /** Each group's aggregates are the sums, the count and the pace total of
      exactly its members, and a group exists precisely when it has one. */
  lemma GroupSums(recs: seq<Record>, k: Key)
    ensures GroupTotals(recs, k).Some? <==> |Members(recs, k)| > 0
    ensures GroupTotals(recs, k).Some? ==>
      var t := GroupTotals(recs, k).value;
      && t.runs == |Members(recs, k)|
      && t.paceSum == PaceTotal(Members(recs, k))
      && forall m :: TotalsValue(t, m) == SumOf(Members(recs, k), m)
  {
    GroupCount(recs, k);
    GroupPace(recs, k);
    forall m {
      GroupSum(recs, k, m);
    }
  }

  /** A group exists exactly for the keys of the records. */
  lemma GroupExists(recs: seq<Record>, k: Key)
    ensures GroupTotals(recs, k).Some? <==> k in RecordKeys(recs)
  {
    GroupCount(recs, k);
    MembersAreGroup(recs, k);
    if k in RecordKeys(recs) {
      var r :| r in recs && KeyOf(r) == k;
      assert r in Members(recs, k);
    }
    if |Members(recs, k)| > 0 {
      var r := Members(recs, k)[0];
      assert r in Members(recs, k);
      assert KeyOf(r) in RecordKeys(recs);
    }
  }

  /** Long is at least the distance of every member of the group. */
  lemma {:induction false} LongIsMax(recs: seq<Record>, k: Key)
    requires GroupTotals(recs, k).Some?
    ensures forall r :: r in Members(recs, k) ==> r.distance <= GroupTotals(recs, k).value.long
  {
    var init, last := recs[..|recs| - 1], recs[|recs| - 1];
    assert recs == init + [last];
    MembersSnoc(init, last, k);
    if GroupTotals(init, k).Some? {
      LongIsMax(init, k);
    } else {
      GroupSums(init, k);
    }
  }

  /** Long is the distance of one of the members of the group. */
  lemma {:induction false} LongIsAttained(recs: seq<Record>, k: Key)
    requires GroupTotals(recs, k).Some?
    ensures exists r :: r in Members(recs, k) && r.distance == GroupTotals(recs, k).value.long
  {
    var init, last := recs[..|recs| - 1], recs[|recs| - 1];
    assert recs == init + [last];
    MembersSnoc(init, last, k);
    if KeyOf(last) == k {
      assert last in Members(recs, k);
      if GroupTotals(init, k).Some? {
        LongIsAttained(init, k);
        var r :| r in Members(init, k) && r.distance == GroupTotals(init, k).value.long;
        assert r in Members(recs, k);
      }
    } else {
      LongIsAttained(init, k);
    }
  }

  predicate Distinct(ks: seq<Key>)
  {
    forall i, j :: 0 <= i < j < |ks| ==> ks[i] != ks[j]
  }

  /** The sum of measure m over the groups ks. */
  function SumGroups(recs: seq<Record>, ks: seq<Key>, m: Measure): int
  {
    if ks == [] then 0
    else SumGroups(recs, ks[..|ks| - 1], m) + SumOf(Members(recs, ks[|ks| - 1]), m)
  }

  lemma {:induction false} SumGroupsEmpty(ks: seq<Key>, m: Measure)
    ensures SumGroups([], ks, m) == 0
  {
    if ks != [] {
      SumGroupsEmpty(ks[..|ks| - 1], m);
    }
  }

  /** Reading one more record adds its value to the group it belongs to
      and to no other. */
  lemma {:induction false} SumGroupsStep(init: seq<Record>, r: Record, ks: seq<Key>, m: Measure)
    requires Distinct(ks)
    ensures SumGroups(init + [r], ks, m) == SumGroups(init, ks, m) + (if KeyOf(r) in ks then RecordValue(r, m) else 0)
  {
    if ks != [] {
      var front, k := ks[..|ks| - 1], ks[|ks| - 1];
      assert ks == front + [k];
      assert Distinct(front);
      assert k !in front;
      SumGroupsStep(init, r, front, m);
      assert (KeyOf(r) in ks) == (KeyOf(r) in front || KeyOf(r) == k);
      MembersSnoc(init, r, k);
      if KeyOf(r) == k {
        SumSnoc(Members(init, k), r, m);
      } else {
        assert Members(init + [r], k) == Members(init, k) + [];
        assert Members(init + [r], k) == Members(init, k);
      }
      assert SumGroups(init + [r], ks, m) == SumGroups(init + [r], front, m) + SumOf(Members(init + [r], k), m);
      assert SumGroups(init, ks, m) == SumGroups(init, front, m) + SumOf(Members(init, k), m);
    }
  }

  /** Conservation: over any list of distinct keys that covers every
      record, the group sums add up to the sum over all records. */
  lemma {:induction false} Conservation(recs: seq<Record>, ks: seq<Key>, m: Measure)
    requires Distinct(ks)
    requires forall r :: r in recs ==> KeyOf(r) in ks
    ensures SumGroups(recs, ks, m) == SumOf(recs, m)
  {
    if recs == [] {
      SumGroupsEmpty(ks, m);
    } else {
      var init, last := recs[..|recs| - 1], recs[|recs| - 1];
      assert recs == init + [last];
      Conservation(init, ks, m);
      SumGroupsStep(init, last, ks, m);
    }
  }

  /** One row of the monthly table after reset_index: the key and the six
      aggregates. Seconds_Pace is the mean pace as a real number. */
  datatype MonthlyRow = MonthlyRow(
    year: int,
    month: string,
    distance: int,
    time: int,
    secondsPace: real,
    elevation: int,
    long: int,
    steps: int)

  function RowKey(row: MonthlyRow): Key
  {
    Key(row.year, row.month)
  }

  /** The row the aggregation makes of a group: its key, its four sums,
      its Long, and the mean pace, which times the run count is the pace
      total. */
  function RowOf(k: Key, t: Totals): (row: MonthlyRow)
    requires t.runs >= 1
    ensures RowKey(row) == k && row.long == t.long
    ensures forall m :: RowValue(row, m) == TotalsValue(t, m)
    ensures row.secondsPace * (t.runs as real) == t.paceSum as real
  {
    MonthlyRow(k.year, k.month, t.distance, t.time, (t.paceSum as real) / (t.runs as real),
      t.elevation, t.long, t.steps)
  }

  /** The Display_Time column, written by the corrected seconds_to_time
      (two digits before the point of a fractional seconds field). It
      reads back as the Time total. */
  function DisplayTime(row: MonthlyRow): (s: string)
    ensures Duration.TimeToTenths(s) == Some(row.time)
  {
    Duration.TenthsToTime(row.time)
  }

  /** The Average_Pace column, computed from the mean Seconds_Pace. It
      reads back as the whole seconds of the mean. */
  function AveragePace(row: MonthlyRow): (s: string)
    ensures Pace.PaceToSeconds(s) == Some(row.secondsPace.Floor)
  {
    Pace.MeanPaceText(row.secondsPace)
  }

  /** The row is the aggregate of its own group. */
  predicate RowOfGroup(recs: seq<Record>, row: MonthlyRow)
  {
    var g := GroupTotals(recs, RowKey(row));
    g.Some? && row == RowOf(RowKey(row), g.value)
  }

  function RowValue(row: MonthlyRow, m: Measure): int
  {
    match m
    case Distance => row.distance
    case Time => row.time
    case Elevation => row.elevation
    case Steps => row.steps
  }

  function SumRows(rows: seq<MonthlyRow>, m: Measure): int
  {
    if rows == [] then 0 else RowValue(rows[0], m) + SumRows(rows[1..], m)
  }

  function RowKeys(rows: seq<MonthlyRow>): set<Key>
  {
    if rows == [] then {} else {RowKey(rows[0])} + RowKeys(rows[1..])
  }

  /** No two rows share a (Year, Month) key. */
  predicate DistinctKeys(rows: seq<MonthlyRow>)
  {
    rows == [] || (RowKey(rows[0]) !in RowKeys(rows[1..]) && DistinctKeys(rows[1..]))
  }

  /** The sort key order: by Year, then by the position of Month in the
      calendar (not alphabetically). */
  predicate RowBefore(a: MonthlyRow, b: MonthlyRow)
  {
    a.year < b.year || (a.year == b.year && CalendarRank(a.month) <= CalendarRank(b.month))
  }

  predicate Sorted(rows: seq<MonthlyRow>)
  {
    forall i, j :: 0 <= i < j < |rows| ==> RowBefore(rows[i], rows[j])
  }

  /** One step of the sort: x placed before the first row it is ordered
      before. It adds exactly x to the rows. */
  function Insert(x: MonthlyRow, s: seq<MonthlyRow>): (r: seq<MonthlyRow>)
    ensures multiset(r) == multiset(s) + multiset{x}
  {
    if s == [] then [x]
    else if RowBefore(x, s[0]) then [x] + s
    else
      assert s == [s[0]] + s[1..];
      [s[0]] + Insert(x, s[1..])
  }

  lemma SortedTail(s: seq<MonthlyRow>)
    requires Sorted(s) && s != []
    ensures Sorted(s[1..])
    ensures forall j :: 0 <= j < |s[1..]| ==> RowBefore(s[0], s[1..][j])
  {
    forall i, j | 0 <= i < j < |s[1..]|
      ensures RowBefore(s[1..][i], s[1..][j])
    {
      assert s[1..][i] == s[i + 1] && s[1..][j] == s[j + 1];
    }
    forall j | 0 <= j < |s[1..]|
      ensures RowBefore(s[0], s[1..][j])
    {
      assert s[1..][j] == s[j + 1];
    }
  }

  /** A row ordered before every row of a sorted sequence can lead it. */
  lemma SortedCons(y: MonthlyRow, s: seq<MonthlyRow>)
    requires Sorted(s)
    requires forall j :: 0 <= j < |s| ==> RowBefore(y, s[j])
    ensures Sorted([y] + s)
  {
    var r := [y] + s;
    forall i, j | 0 <= i < j < |r|
      ensures RowBefore(r[i], r[j])
    {
      assert r[j] == s[j - 1];
      if i > 0 {
        assert r[i] == s[i - 1];
      }
    }
  }

  /** Inserting into a sorted sequence keeps it sorted by (Year, calendar
      position). */
  lemma {:induction false} InsertSorted(x: MonthlyRow, s: seq<MonthlyRow>)
    requires Sorted(s)
    ensures Sorted(Insert(x, s))
  {
    if s == [] {
    } else if RowBefore(x, s[0]) {
      forall j | 0 <= j < |s|
        ensures RowBefore(x, s[j])
      {
        if j > 0 {
          SortedTail(s);
          assert s[j] == s[1..][j - 1];
        }
      }
      SortedCons(x, s);
    } else {
      SortedTail(s);
      InsertSorted(x, s[1..]);
      var rest := Insert(x, s[1..]);
      InsertLeads(s[0], x, s[1..], rest);
      SortedCons(s[0], rest);
    }
  }

  lemma InsertLeads(y: MonthlyRow, x: MonthlyRow, s: seq<MonthlyRow>, rest: seq<MonthlyRow>)
    requires !RowBefore(x, y)
    requires forall j :: 0 <= j < |s| ==> RowBefore(y, s[j])
    requires multiset(rest) == multiset(s) + multiset{x}
    ensures forall j :: 0 <= j < |rest| ==> RowBefore(y, rest[j])
  {
    forall j | 0 <= j < |rest|
      ensures RowBefore(y, rest[j])
    {
      assert rest[j] in multiset(rest);
      if rest[j] != x {
        assert rest[j] in multiset(s);
        var i :| 0 <= i < |s| && s[i] == rest[j];
      }
    }
  }

  /** Inserting adds the key of the inserted row and no other. */
  lemma {:induction false} InsertKeys(x: MonthlyRow, s: seq<MonthlyRow>)
    ensures RowKeys(Insert(x, s)) == RowKeys(s) + {RowKey(x)}
    ensures DistinctKeys(s) && RowKey(x) !in RowKeys(s) ==> DistinctKeys(Insert(x, s))
  {
    if s != [] && !RowBefore(x, s[0]) {
      InsertKeys(x, s[1..]);
      var r := Insert(x, s);
      assert r[0] == s[0] && r[1..] == Insert(x, s[1..]);
    } else if s != [] {
      var r := Insert(x, s);
      assert r[1..] == s;
    }
  }

  /** Inserting adds the inserted row's values to every column sum. */
  lemma {:induction false} InsertSums(x: MonthlyRow, s: seq<MonthlyRow>, m: Measure)
    ensures SumRows(Insert(x, s), m) == SumRows(s, m) + RowValue(x, m)
  {
    if s != [] && !RowBefore(x, s[0]) {
      InsertSums(x, s[1..], m);
      var r := Insert(x, s);
      assert r[0] == s[0] && r[1..] == Insert(x, s[1..]);
    } else if s != [] {
      var r := Insert(x, s);
      assert r[1..] == s;
    } else {
      assert Insert(x, s)[1..] == [];
    }
  }

  /** Every row's key is in RowKeys, and every key there is some row's. */
  lemma {:induction false} RowKeysIndex(rows: seq<MonthlyRow>)
    ensures forall j :: 0 <= j < |rows| ==> RowKey(rows[j]) in RowKeys(rows)
    ensures forall k :: k in RowKeys(rows) ==> exists j :: 0 <= j < |rows| && RowKey(rows[j]) == k
  {
    if rows != [] {
      RowKeysIndex(rows[1..]);
      forall k | k in RowKeys(rows)
        ensures exists j :: 0 <= j < |rows| && RowKey(rows[j]) == k
      {
        if k != RowKey(rows[0]) {
          assert k in RowKeys(rows[1..]);
          var j :| 0 <= j < |rows[1..]| && RowKey(rows[1..][j]) == k;
          assert RowKey(rows[j + 1]) == k;
        }
      }
      forall j | 0 <= j < |rows|
        ensures RowKey(rows[j]) in RowKeys(rows)
      {
        if j > 0 {
          assert rows[j] == rows[1..][j - 1];
        }
      }
    }
  }

  /** When the rows cover exactly the records' keys, each row's key is the
      key of some record. */
  lemma RecordOfRow(recs: seq<Record>, rows: seq<MonthlyRow>, i: nat) returns (r: Record)
    requires RowKeys(rows) == RecordKeys(recs) && i < |rows|
    ensures r in recs && KeyOf(r) == RowKey(rows[i])
  {
    RowKeysIndex(rows);
    var k := RowKey(rows[i]);
    assert k in RecordKeys(recs);
    r :| r in recs && KeyOf(r) == k;
  }

  /** What holds of every record's month holds of every row's month. */
  lemma RowMonths(recs: seq<Record>, rows: seq<MonthlyRow>, p: string -> bool)
    requires RowKeys(rows) == RecordKeys(recs)
    requires forall r :: r in recs ==> p(r.month)
    ensures forall i :: 0 <= i < |rows| ==> p(rows[i].month)
  {
    forall i | 0 <= i < |rows|
      ensures p(rows[i].month)
    {
      var r := RecordOfRow(recs, rows, i);
    }
  }

  /** DistinctKeys means that no two positions hold the same key. */
  lemma {:induction false} DistinctKeysPairs(rows: seq<MonthlyRow>)
    requires DistinctKeys(rows)
    ensures forall i, j :: 0 <= i < j < |rows| ==> RowKey(rows[i]) != RowKey(rows[j])
  {
    if rows != [] {
      DistinctKeysPairs(rows[1..]);
      RowKeysIndex(rows[1..]);
      forall i, j | 0 <= i < j < |rows|
        ensures RowKey(rows[i]) != RowKey(rows[j])
      {
        assert rows[j] == rows[1..][j - 1];
        if i > 0 {
          assert rows[i] == rows[1..][i - 1];
        }
      }
    }
  }

  lemma RowOfValue(k: Key, t: Totals, m: Measure)
    requires t.runs >= 1
    ensures RowKey(RowOf(k, t)) == k
    ensures RowValue(RowOf(k, t), m) == TotalsValue(t, m)
  {
  }

  lemma InsertKeepsGroups(recs: seq<Record>, rows: seq<MonthlyRow>, row: MonthlyRow)
    requires forall r :: r in rows ==> RowOfGroup(recs, r)
    requires RowOfGroup(recs, row)
    ensures forall r :: r in Insert(row, rows) ==> RowOfGroup(recs, r)
  {
    var next := Insert(row, rows);
    forall r | r in next
      ensures RowOfGroup(recs, r)
    {
      assert r in multiset(next);
    }
  }

  lemma KeysStep(keys: seq<Key>, i: nat)
    requires i < |keys|
    ensures (set j | 0 <= j < i + 1 :: keys[j]) == (set j | 0 <= j < i :: keys[j]) + {keys[i]}
    ensures Distinct(keys) ==> keys[i] !in (set j | 0 <= j < i :: keys[j])
  {
  }

  lemma SumsStep(recs: seq<Record>, keys: seq<Key>, i: nat, rows: seq<MonthlyRow>, row: MonthlyRow)
    requires i < |keys|
    requires GroupTotals(recs, keys[i]).Some? && row == RowOf(keys[i], GroupTotals(recs, keys[i]).value)
    requires forall m :: SumRows(rows, m) == SumGroups(recs, keys[..i], m)
    ensures forall m :: SumRows(Insert(row, rows), m) == SumGroups(recs, keys[..i + 1], m)
  {
    assert keys[..i + 1][..i] == keys[..i];
    var ks := keys[..i + 1];
    assert ks[..|ks| - 1] == keys[..i] && ks[|ks| - 1] == keys[i];
    var t := GroupTotals(recs, keys[i]).value;
    forall m
      ensures SumRows(Insert(row, rows), m) == SumGroups(recs, ks, m)
    {
      InsertSums(row, rows, m);
      GroupSum(recs, keys[i], m);
      RowOfValue(keys[i], t, m);
      assert SumGroups(recs, ks, m) == SumGroups(recs, keys[..i], m) + SumOf(Members(recs, keys[i]), m);
    }
  }

  /** The groupby: one pass over the records, accumulating each record into
      the entry of its (Year, Month) key; keys are remembered in order of
      first appearance. */
  method GroupBy(recs: seq<Record>) returns (groups: map<Key, Totals>, keys: seq<Key>)
    ensures forall k :: GroupTotals(recs, k) == (if k in groups then Some(groups[k]) else None)
    ensures forall k :: k in groups <==> k in keys
    ensures Distinct(keys)
  {
    groups := map[];
    keys := [];
    for i := 0 to |recs|
      invariant forall k :: GroupTotals(recs[..i], k) == (if k in groups then Some(groups[k]) else None)
      invariant forall k :: k in groups <==> k in keys
      invariant Distinct(keys)
    {
      var r := recs[i];
      var k := KeyOf(r);
      assert recs[..i + 1][..i] == recs[..i];
      if k in groups {
        groups := groups[k := Add(groups[k], r)];
      } else {
        groups := groups[k := Start(r)];
        keys := keys + [k];
      }
    }
    assert recs[..|recs|] == recs;
  }

  /** The monthly table: the groups made into rows and sorted by (Year,
      calendar month). Every row is the aggregate of its group, each key of
      the input appears exactly once, and the summed columns add up to the
      totals over all records. */
  method Summarize(recs: seq<Record>) returns (rows: seq<MonthlyRow>)
    ensures forall row :: row in rows ==> RowOfGroup(recs, row)
    ensures RowKeys(rows) == RecordKeys(recs)
    ensures DistinctKeys(rows)
    ensures Sorted(rows)
    ensures forall m :: SumRows(rows, m) == SumOf(recs, m)
  {
    var groups, keys := GroupBy(recs);
    rows := [];
    for i := 0 to |keys|
      invariant TableSoFar(recs, keys, i, rows)
    {
      var k := keys[i];
      assert GroupTotals(recs, k) == Some(groups[k]);
      var row := RowOf(k, groups[k]);
      SummarizeStep(recs, keys, i, rows, row);
      rows := Insert(row, rows);
    }
    SummarizeClose(recs, groups, keys, rows);
  }

  /** The table after the first i groups: sorted, made of group rows with
      distinct keys (exactly keys[..i]), and summing to those groups. */
  predicate TableSoFar(recs: seq<Record>, keys: seq<Key>, i: nat, rows: seq<MonthlyRow>)
    requires i <= |keys|
  {
    && Sorted(rows)
    && (forall r :: r in rows ==> RowOfGroup(recs, r))
    && RowKeys(rows) == (set j | 0 <= j < i :: keys[j])
    && DistinctKeys(rows)
    && (forall m :: SumRows(rows, m) == SumGroups(recs, keys[..i], m))
  }

  /** One group more: inserting the row of keys[i] keeps the table built so far. */
  lemma SummarizeStep(recs: seq<Record>, keys: seq<Key>, i: nat, rows: seq<MonthlyRow>, row: MonthlyRow)
    requires i < |keys| && Distinct(keys)
    requires GroupTotals(recs, keys[i]).Some? && row == RowOf(keys[i], GroupTotals(recs, keys[i]).value)
    requires TableSoFar(recs, keys, i, rows)
    ensures TableSoFar(recs, keys, i + 1, Insert(row, rows))
  {
    InsertKeepsGroups(recs, rows, row);
    InsertSorted(row, rows);
    InsertKeys(row, rows);
    KeysStep(keys, i);
    SumsStep(recs, keys, i, rows, row);
  }

  /** After the last group: the rows' keys are exactly the records' keys,
      and the summed columns add up to the totals over all records. */
  lemma SummarizeClose(recs: seq<Record>, groups: map<Key, Totals>, keys: seq<Key>, rows: seq<MonthlyRow>)
    requires forall k :: GroupTotals(recs, k) == (if k in groups then Some(groups[k]) else None)
    requires forall k :: k in groups <==> k in keys
    requires Distinct(keys)
    requires TableSoFar(recs, keys, |keys|, rows)
    ensures forall row :: row in rows ==> RowOfGroup(recs, row)
    ensures DistinctKeys(rows)
    ensures Sorted(rows)
    ensures RowKeys(rows) == RecordKeys(recs)
    ensures forall m :: SumRows(rows, m) == SumOf(recs, m)
  {
    assert keys[..|keys|] == keys;
    forall k
      ensures k in RowKeys(rows) <==> k in RecordKeys(recs)
    {
      GroupExists(recs, k);
      if k in keys {
        var j :| 0 <= j < |keys| && keys[j] == k;
      }
    }
    forall r | r in recs
      ensures KeyOf(r) in keys
    {
      GroupExists(recs, KeyOf(r));
    }
    forall m
      ensures SumRows(rows, m) == SumOf(recs, m)
    {
      Conservation(recs, keys, m);
    }
  }

  /** The twelve month names are pairwise different. */
  lemma MonthOrderDistinct()
    ensures forall i, j :: 0 <= i < j < |MonthOrder| ==> MonthOrder[i] != MonthOrder[j]
  {
  }

  lemma CalendarRankOf(i: nat)
    requires i < 12
    ensures CalendarRank(MonthOrder[i]) == i
  {
    MonthOrderDistinct();
  }

  /** month_order is calendar.month_name without its empty first entry, so
      the name of month m (1 to 12) is month_order[m - 1] and sits at
      position m - 1 of the sort; the empty name of month 00 sorts last. */
  lemma CalendarAgreement()
    ensures Normalize.MonthNames == [""] + MonthOrder
    ensures forall m :: 1 <= m <= 12 ==> Normalize.MonthName(m) == Some(MonthOrder[m - 1])
    ensures forall m :: 1 <= m <= 12 ==> CalendarRank(Normalize.MonthName(m).value) == m - 1
    ensures CalendarRank("") == 12
  {
    MonthNamesShape();
    MonthNameOrder();
    MonthNumberRank();
  }

  lemma MonthNameOrder()
    ensures forall m :: 1 <= m <= 12 ==> Normalize.MonthName(m) == Some(MonthOrder[m - 1])
  {
    MonthNamesShape();
    forall m | 1 <= m <= 12
      ensures Normalize.MonthName(m) == Some(MonthOrder[m - 1])
    {
      assert Normalize.MonthNames[m] == MonthOrder[m - 1];
    }
  }

  lemma MonthNumberRank()
    ensures forall m :: 1 <= m <= 12 ==> CalendarRank(Normalize.MonthName(m).value) == m - 1
  {
    MonthNameOrder();
    forall m | 1 <= m <= 12
      ensures CalendarRank(Normalize.MonthName(m).value) == m - 1
    {
      CalendarRankOf(m - 1);
    }
  }

  lemma MonthNamesShape()
    ensures Normalize.MonthNames == [""] + MonthOrder
    ensures "" !in MonthOrder
  {
    var names := [""] + MonthOrder;
    assert |names| == |Normalize.MonthNames|;
    forall i | 0 <= i < |names|
      ensures names[i] == Normalize.MonthNames[i]
    {
    }
  }

  /** Sorting by calendar position is sorting by month number. */
  lemma CalendarOrderIsNumeric(a: int, b: int)
    requires 1 <= a <= 12 && 1 <= b <= 12
    ensures CalendarRank(Normalize.MonthName(a).value) < CalendarRank(Normalize.MonthName(b).value) <==> a < b
  {
    CalendarAgreement();
  }

  /** A name calendar.month_name can produce: a category or the empty name. */
  predicate MonthNameValue(name: string)
  {
    name == "" || CalendarRank(name) < 12
  }

  /** calendar.month_name produces exactly these names. */
  lemma MonthNameValues(name: string)
    ensures name in Normalize.MonthNames <==> MonthNameValue(name)
  {
    MonthNamesShape();
  }

  /** Different month names never share a sort position. */
  lemma RankInjective(a: string, b: string)
    requires MonthNameValue(a) && MonthNameValue(b)
    requires CalendarRank(a) == CalendarRank(b)
    ensures a == b
  {
    MonthNamesShape();
  }

  /** With month names from calendar.month_name and one row per key, the
      sorted table is strictly increasing in (Year, calendar position). */
  lemma SortedStrict(rows: seq<MonthlyRow>)
    requires Sorted(rows) && DistinctKeys(rows)
    requires forall i :: 0 <= i < |rows| ==> MonthNameValue(rows[i].month)
    ensures forall i, j :: 0 <= i < j < |rows| ==>
      rows[i].year < rows[j].year ||
      (rows[i].year == rows[j].year && CalendarRank(rows[i].month) < CalendarRank(rows[j].month))
  {
    DistinctKeysPairs(rows);
    forall i, j | 0 <= i < j < |rows|
      ensures rows[i].year < rows[j].year ||
        (rows[i].year == rows[j].year && CalendarRank(rows[i].month) < CalendarRank(rows[j].month))
    {
      StrictPair(rows[i], rows[j]);
    }
  }

  lemma StrictPair(a: MonthlyRow, b: MonthlyRow)
    requires RowBefore(a, b) && RowKey(a) != RowKey(b)
    requires MonthNameValue(a.month) && MonthNameValue(b.month)
    ensures a.year < b.year || (a.year == b.year && CalendarRank(a.month) < CalendarRank(b.month))
  {
    if a.year == b.year && CalendarRank(a.month) == CalendarRank(b.month) {
      RankInjective(a.month, b.month);
    }
  }

  /** December of one year comes before January of the next. */
  lemma DecemberBeforeJanuary(a: MonthlyRow, b: MonthlyRow)
    requires a.month == "December" && b.month == "January" && b.year == a.year + 1
    ensures RowBefore(a, b) && !RowBefore(b, a)
  {
  }

  /** In the sorted table April never precedes March of the same year. */
  lemma AprilAfterMarch(rows: seq<MonthlyRow>, i: nat, j: nat)
    requires Sorted(rows) && i < j < |rows|
    requires rows[i].year == rows[j].year && rows[i].month == "April"
    ensures rows[j].month != "March"
  {
    CalendarRankOf(2);
    CalendarRankOf(3);
  }

  /** Long, per row: at least the distance of every member of its group,
      and equal to one of them. */
  lemma RowLong(recs: seq<Record>, row: MonthlyRow)
    requires RowOfGroup(recs, row)
    ensures forall r :: r in Members(recs, RowKey(row)) ==> r.distance <= row.long
    ensures exists r :: r in Members(recs, RowKey(row)) && r.distance == row.long
  {
    LongIsMax(recs, RowKey(row));
    LongIsAttained(recs, RowKey(row));
  }

  /** Seconds_Pace is the mean pace of the group, and Average_Pace shows the
      whole seconds of that mean: the integer quotient of the pace total by
      the run count, never rounded up. */
  lemma RowPace(recs: seq<Record>, row: MonthlyRow)
    requires RowOfGroup(recs, row)
    ensures var ms := Members(recs, RowKey(row));
      && |ms| > 0
      && row.secondsPace == (PaceTotal(ms) as real) / (|ms| as real)
      && AveragePace(row) == Pace.SecondsToPace(PaceTotal(ms) / |ms|)
  {
    var k := RowKey(row);
    GroupSums(recs, k);
    var t := GroupTotals(recs, k).value;
    Pace.MeanPaceTextFloor(row.secondsPace);
    Pace.MeanFloor(t.paceSum, t.runs);
  }

  /** Display_Time reads back as the group's Time total, which is the sum of
      its members' times. So does the text the script as written shows;
      the two texts are the same exactly when the total is whole seconds. */
  lemma RowDisplayTime(recs: seq<Record>, row: MonthlyRow)
    requires RowOfGroup(recs, row)
    ensures Duration.TimeToTenths(DisplayTime(row)) == Some(row.time)
    ensures Duration.TimeToTenths(Duration.TenthsToTimeAsWritten(row.time)) == Some(row.time)
    ensures row.time % 10 == 0 <==> DisplayTime(row) == Duration.TenthsToTimeAsWritten(row.time)
    ensures row.time == SumOf(Members(recs, RowKey(row)), Time)
  {
    Duration.FormattersAgree(row.time);
    GroupSum(recs, RowKey(row), Time);
  }
}
