/** The pace codec of calruns_dashboard.py: "Avg Pace" text "M:SS" becomes
    seconds per distance unit, and a monthly mean pace is written back as
    "M:SS" with the minutes unpadded and the seconds padded to two digits. */
module Pace {
  import opened Wrappers
  import opened Text

  /** int(x[0]) * 60 + int(x[1]) over the ':'-separated fields; fields after
      the second are never read. */
  function PaceToSeconds(text: string): (r: Option<int>)
    ensures r.Some? ==> |Split(text, ':')| >= 2 && ':' in text
  {
    var parts := Split(text, ':');
    SplitPieces(text, ':');
    if |parts| < 2 then None
    else
      match (ParseInt(parts[0]), ParseInt(parts[1]))
      case (Some(m), Some(s)) => Some(m * 60 + s)
      case _ => None
  }

  /** f"{p // 60}:{p % 60:02d}" for a whole number of seconds: two fields,
      the minutes unpadded (no leading zero) and the seconds within the
      minute, always two digits. */
  function SecondsToPace(p: int): (s: string)
    ensures var parts := Split(s, ':');
      && |parts| == 2
      && ParseInt(parts[0]) == Some(p / 60)
      && (p >= 0 ==> AllDigits(parts[0]) && (|parts[0]| == 1 || parts[0][0] != '0'))
      && (p < 0 ==> parts[0][0] == '-')
      && ParseInt(parts[1]) == Some(p % 60) && |parts[1]| == 2 && AllDigits(parts[1])
  {
    var a, b := IntToString(p / 60), Pad2(p % 60);
    SplitAtSeparator(a, ':', b);
    SplitNoSeparator(b, ':');
    PaceFields(p / 60, p % 60)
  }

  /** The text "M:SS" of a minutes field and a seconds field. */
  function PaceFields(minutes: int, seconds: int): string
  {
    IntToString(minutes) + ":" + Pad2Int(seconds)
  }

  /** Python's int() on a float: truncation toward zero. */
  function Trunc(x: real): int
  {
    if x >= 0.0 then x.Floor else -((-x).Floor)
  }

  /** Python's x // 60 on a float: the floor of the quotient. */
  function Minutes(x: real): (q: int)
    ensures q == x.Floor / 60
  {
    FloorOfDivision(x);
    (x / 60.0).Floor
  }

  /** Python's x % 60 on a float: x less 60 times x // 60, which lies in
      [0, 60) for the positive divisor. */
  function WithinMinute(x: real): (w: real)
    ensures 0.0 <= w < 60.0 && w.Floor == x.Floor % 60
  {
    FloorOfDivision(x);
    x - 60.0 * ((x / 60.0).Floor as real)
  }

  /** The Average_Pace lambda on the (fractional) mean x:
      f"{int(x // 60)}:{int(x % 60):02d}". */
  function MeanPaceText(x: real): (s: string)
    ensures PaceToSeconds(s) == Some(x.Floor)
  {
    var minutes, within := Minutes(x), WithinMinute(x);
    assert Trunc(minutes as real) == minutes && Trunc(within) == within.Floor;
    PaceRoundTrip(x.Floor);
    PaceFields(Trunc(minutes as real), Trunc(within))
  }

  /** The text and the value of a pace agree: "M:SS" reads back as the
      seconds it was written from, for every whole number of seconds. */
  lemma PaceRoundTrip(p: int)
    ensures PaceToSeconds(SecondsToPace(p)) == Some(p)
  {
    var a, b := IntToString(p / 60), Pad2(p % 60);
    assert SecondsToPace(p) == a + ":" + b;
    PaceOfFields(a, b);
    assert (p / 60) * 60 + p % 60 == p;
  }

  /** "M:SS" with integer fields is M * 60 + SS. */
  lemma PaceOfFields(m: string, s: string)
    requires ParseInt(m).Some? && ParseInt(s).Some?
    ensures PaceToSeconds(m + ":" + s) == Some(ParseInt(m).value * 60 + ParseInt(s).value)
  {
    SplitAtSeparator(m, ':', s);
    SplitNoSeparator(s, ':');
  }

  /** A pace with one field only is an error. */
  lemma PaceNeedsTwoFields(m: string)
    requires ':' !in m
    ensures PaceToSeconds(m) == None
  {
    SplitNoSeparator(m, ':');
  }

  lemma FloorOfDivision(x: real)
    ensures (x / 60.0).Floor == x.Floor / 60
    ensures var w := x - 60.0 * ((x / 60.0).Floor as real);
      0.0 <= w < 60.0 && w.Floor == x.Floor % 60
  {
    var f := x.Floor;
    var q, r := f / 60, f % 60;
    assert f == 60 * q + r && 0 <= r < 60;
    assert (f as real) <= x < (f as real) + 1.0;
    assert (q as real) <= x / 60.0 < (q as real) + 1.0 by {
      assert (f as real) == 60.0 * (q as real) + (r as real);
    }
    assert (x / 60.0).Floor == q;
    var w := x - 60.0 * (q as real);
    assert (r as real) <= w < (r as real) + 1.0 by {
      assert (f as real) == 60.0 * (q as real) + (r as real);
    }
  }

  /** The display of a mean pace depends only on the whole seconds of the
      mean: the fraction is truncated away, never rounded. */
  lemma MeanPaceTextFloor(x: real)
    ensures MeanPaceText(x) == SecondsToPace(x.Floor)
  {
    var minutes, within := Minutes(x), WithinMinute(x);
    assert Trunc(minutes as real) == minutes && Trunc(within) == within.Floor;
  }

  lemma CastMul(a: int, b: int)
    ensures (a * b) as real == (a as real) * (b as real)
  {
  }

  lemma CancelFactor(a: real, b: real, c: real)
    requires c > 0.0
    ensures a * c <= b * c ==> a <= b
    ensures a * c < b * c ==> a < b
  {
  }

  lemma DivBounds(s: real, n: real, q: real)
    requires n > 0.0 && q * n <= s < (q + 1.0) * n
    ensures q <= s / n < q + 1.0
  {
    var x := s / n;
    assert x * n == s;
    CancelFactor(q, x, n);
    CancelFactor(x, q + 1.0, n);
  }

  /** The whole seconds of a mean of integers is integer division. */
  lemma MeanFloor(sum: int, n: int)
    requires n > 0
    ensures ((sum as real) / (n as real)).Floor == sum / n
  {
    var q, r := sum / n, sum % n;
    assert sum == n * q + r && 0 <= r < n;
    CastMul(q, n);
    CastMul(q + 1, n);
    assert (q as real) * (n as real) <= sum as real;
    assert (sum as real) < ((q + 1) as real) * (n as real);
    DivBounds(sum as real, n as real, q as real);
  }

  /** "5:30" is 330 seconds. */
  lemma PaceParseExample()
    ensures PaceToSeconds("5:30") == Some(330)
  {
    assert ParseInt("5") == Some(5) by { DigitsParse("5"); }
    assert ParseInt("30") == Some(30) by {
      assert "30"[..1] == "3";
      DigitsParse("30");
    }
    PaceOfFields("5", "30");
    assert "5" + ":" + "30" == "5:30";
  }

  /** 330 seconds is written "5:30". */
  lemma PaceFormatExample()
    ensures SecondsToPace(330) == "5:30"
  {
    assert 330 / 60 == 5 && 330 % 60 == 30;
    assert IntToString(5) == "5";
    assert Pad2(30) == "30" by { assert NatToString(30) == "30" by { assert NatToString(3) == "3"; } }
  }

  /** A mean of 330.9 seconds still shows as "5:30". */
  lemma MeanPaceExample()
    ensures MeanPaceText(330.9) == "5:30"
  {
    MeanPaceTextFloor(330.9);
    assert (330.9).Floor == 330;
    PaceFormatExample();
  }
}
