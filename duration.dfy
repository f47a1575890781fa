/** The elapsed-time codec of calruns_dashboard.py: `time_to_seconds` reads
    "H:MM:SS" or "H:MM:SS.f" and `seconds_to_time` writes a total back out.
    Durations are exact integers counting TENTHS of a second, so the
    fractional-seconds branch is kept without floating point. */
module Duration {
  import opened Wrappers
  import opened Text

  /** float(s) for decimal text with a point and at most one digit after it,
      in tenths: an optional sign, digits, '.', an optional digit. */
  function DecimalTenths(s: string): (r: Option<int>)
    ensures r.Some? ==> '.' in s
  {
    var halves := Split(s, '.');
    SplitPieces(s, '.');
    if |halves| != 2 then None else PointTenths(halves[0], halves[1])
  }

  /** The value of `whole.frac` in tenths. */
  function PointTenths(whole: string, frac: string): Option<int>
  {
    var negative := |whole| > 0 && whole[0] == '-';
    var digits := if |whole| > 0 && (negative || whole[0] == '+') then whole[1..] else whole;
    if AllDigits(digits) && AllDigits(frac) && |frac| <= 1 && |digits| + |frac| >= 1 then
      var magnitude := DigitsValue(digits) * 10 + (if frac == [] then 0 else DigitValue(frac[0]));
      Some(if negative then -magnitude else magnitude)
    else None
  }

  /** The third field: float() when it holds a '.', int() otherwise. */
  function SecondsField(s: string): (r: Option<int>)
    ensures r.Some? && '.' !in s ==> r.value % 10 == 0
  {
    if '.' in s then DecimalTenths(s)
    else match ParseInt(s)
      case Some(v) => Some(10 * v)
      case None => None
  }

  /** time_to_seconds, in tenths. Fields after the third are never read. */
  function TimeToTenths(text: string): (r: Option<int>)
    ensures r.Some? ==> |Split(text, ':')| >= 3 && ':' in text
  {
    var parts := Split(text, ':');
    SplitPieces(text, ':');
    if |parts| < 3 then None
    else
      match (ParseInt(parts[0]), ParseInt(parts[1]), SecondsField(parts[2]))
      case (Some(h), Some(m), Some(t)) => Some(h * 36000 + m * 600 + t)
      case _ => None
  }

  /** The seconds field of seconds_to_time for `rem` tenths within a minute:
      `{s:02}` when there is no fraction, otherwise `{s:0<width>.1f}`. */
  function SecondsText(rem: nat, width: nat): (s: string)
    requires rem < 600
    ensures ':' !in s
    ensures rem % 10 == 0 ==> |s| == 2
    ensures rem % 10 != 0 && width >= 4 ==> |s| == width
  {
    if rem % 10 == 0 then
      var r := Pad2(rem / 10);
      AllDigitsExclude(r, ':');
      r
    else
      var w := NatToString(rem / 10);
      AllDigitsExclude(w, ':');
      var x := w + "." + [DigitChar(rem % 10)];
      ZeroPadExcludes(x, width, ':');
      ZeroPad(x, width)
  }

  lemma ZeroPadExcludes(x: string, width: nat, c: char)
    requires c !in x && !IsDigit(c)
    ensures c !in ZeroPad(x, width)
  {
    if |x| < width {
      AllDigitsExclude(Zeros(width - |x|), c);
    }
  }

  /** The clock text: hours, minutes and seconds joined by ':', which none
      of the three fields contains, so it splits back into exactly them. */
  function Clock(t: int, width: nat): (s: string)
    ensures Split(s, ':') == [Pad2Int(t / 36000), Pad2((t % 36000) / 600), SecondsText(t % 600, width)]
  {
    var a, b, c := Pad2Int(t / 36000), Pad2((t % 36000) / 600), SecondsText(t % 600, width);
    SplitThree(a, b, c, ':');
    a + ":" + b + ":" + c
  }

  /** seconds_to_time exactly as written: the fraction is rendered `05.1f`,
      which pads "9.5" to "009.5". What it writes reads back through
      time_to_seconds as the duration, for every integer number of tenths. */
  function TenthsToTimeAsWritten(t: int): (s: string)
    ensures TimeToTenths(s) == Some(t)
  {
    ClockRoundTrip(t, 5);
    Clock(t, 5)
  }

  /** seconds_to_time with the fraction rendered `04.1f`: two digits before
      the point, as the other two fields have. It reads back the same way. */
  function TenthsToTime(t: int): (s: string)
    ensures TimeToTenths(s) == Some(t)
  {
    ClockRoundTrip(t, 4);
    Clock(t, 4)
  }

  lemma DivMod600(x: int, q: int, r: int)
    requires 0 <= r < 600 && x == 600 * q + r
    ensures x / 600 == q && x % 600 == r
  {
  }

  lemma DivMod10(x: int, q: int, r: int)
    requires 0 <= r < 10 && x == 10 * q + r
    ensures x / 10 == q && x % 10 == r
  {
  }

  /** The three clock fields put back together give the total. */
  lemma ClockArithmetic(t: int)
    ensures (t % 36000) / 600 < 60
    ensures t == t / 36000 * 36000 + (t % 36000) / 600 * 600 + t % 600
  {
    var w := t % 36000;
    var q := t / 36000;
    DivMod600(w, w / 600, w % 600);
    DivMod600(t, 60 * q + w / 600, w % 600);
  }

  lemma SplitAtPoint(digits: string, d: char)
    requires AllDigits(digits) && IsDigit(d)
    ensures Split(digits + "." + [d], '.') == [digits, [d]]
  {
    AllDigitsExclude(digits, '.');
    SplitAtSeparator(digits, '.', [d]);
    SplitNoSeparator([d], '.');
  }

  lemma PointTenthsOf(digits: string, d: char, v: int)
    requires 1 <= |digits| && AllDigits(digits) && IsDigit(d)
    requires v == DigitsValue(digits) * 10 + DigitValue(d)
    ensures PointTenths(digits, [d]) == Some(v)
  {
    AllDigitsAt(digits, 0);
    assert AllDigits([d]) by { assert [d][..0] == []; }
  }

  lemma DecimalOfHalves(s: string, a: string, b: string, v: int)
    requires Split(s, '.') == [a, b] && PointTenths(a, b) == Some(v)
    ensures DecimalTenths(s) == Some(v)
  {
  }

  /** Unsigned digits, a point and one digit read back as tenths. */
  lemma DecimalTenthsOf(digits: string, d: char, v: int)
    requires 1 <= |digits| && AllDigits(digits) && IsDigit(d)
    requires v == DigitsValue(digits) * 10 + DigitValue(d)
    ensures DecimalTenths(digits + "." + [d]) == Some(v)
  {
    SplitAtPoint(digits, d);
    PointTenthsOf(digits, d, v);
    DecimalOfHalves(digits + "." + [d], digits, [d], v);
  }

  lemma SecondsTextFraction(rem: nat, width: nat)
    requires rem < 600 && rem % 10 != 0
    ensures SecondsText(rem, width) == ZeroPad(NatToString(rem / 10) + "." + [DigitChar(rem % 10)], width)
  {
  }

  lemma PadPoint(w: string, c: char, width: nat)
    requires |w| + 2 <= width
    ensures ZeroPad(w + "." + [c], width) == (Zeros(width - (|w| + 2)) + w) + "." + [c]
  {
    var z := Zeros(width - (|w| + 2));
    if |w| + 2 == width {
      assert z == [];
      assert z + w == w;
    }
  }

  /** The digits before the point in a fractional seconds field. */
  lemma FractionShape(rem: nat, width: nat) returns (digits: string)
    requires rem < 600 && rem % 10 != 0 && (width == 4 || width == 5)
    ensures SecondsText(rem, width) == digits + "." + [DigitChar(rem % 10)]
    ensures AllDigits(digits) && DigitsValue(digits) == rem / 10 && |digits| == width - 2
  {
    var w := NatToString(rem / 10);
    SecondsTextFraction(rem, width);
    PadPoint(w, DigitChar(rem % 10), width);
    ZerosPrefix(width - (|w| + 2), w);
    digits := Zeros(width - (|w| + 2)) + w;
  }

  /** A fractional seconds field padded to 4 or 5 characters holds no ':',
      reads back as `rem` tenths and has width - 2 digits before the point. */
  lemma FractionText(rem: nat, width: nat)
    requires rem < 600 && rem % 10 != 0 && (width == 4 || width == 5)
    ensures ':' !in SecondsText(rem, width) && '.' in SecondsText(rem, width)
    ensures DecimalTenths(SecondsText(rem, width)) == Some(rem)
    ensures |Split(SecondsText(rem, width), '.')[0]| == width - 2
    ensures var halves := Split(SecondsText(rem, width), '.');
      && |halves| == 2 && AllDigits(halves[0]) && DigitsValue(halves[0]) == rem / 10
      && halves[1] == [DigitChar(rem % 10)]
  {
    var digits := FractionShape(rem, width);
    var d := DigitChar(rem % 10);
    FractionValue(rem, digits, d);
    PointFacts(digits, d);
  }

  /** Digits, a point and a digit: no ':', one '.', split at the point. */
  lemma PointFacts(digits: string, d: char)
    requires AllDigits(digits) && IsDigit(d)
    ensures ':' !in digits + "." + [d] && '.' in digits + "." + [d]
    ensures Split(digits + "." + [d], '.') == [digits, [d]]
  {
    SplitAtPoint(digits, d);
    AllDigitsExclude(digits, ':');
    assert (digits + "." + [d])[|digits|] == '.';
  }

  lemma FractionValue(rem: nat, digits: string, d: char)
    requires AllDigits(digits) && 1 <= |digits| && DigitsValue(digits) == rem / 10
    requires rem % 10 < 10 && d == DigitChar(rem % 10)
    ensures DecimalTenths(digits + "." + [d]) == Some(rem)
  {
    var q, r := rem / 10, rem % 10;
    assert DigitValue(d) == r;
    assert rem == q * 10 + r;
    DecimalTenthsOf(digits, d, rem);
  }

  /** What the seconds field reads back as, for either width. */
  lemma SecondsFieldOfText(rem: nat, width: nat)
    requires rem < 600 && (width == 4 || width == 5)
    ensures ':' !in SecondsText(rem, width)
    ensures SecondsField(SecondsText(rem, width)) == Some(rem)
  {
    if rem % 10 == 0 {
      assert SecondsText(rem, width) == Pad2(rem / 10);
    } else {
      FractionText(rem, width);
    }
  }

  /** time_to_seconds of a text whose three fields read as h, m and sec. */
  lemma TimeOfThree(text: string, a: string, b: string, c: string, h: int, m: int, sec: int, v: int)
    requires Split(text, ':') == [a, b, c]
    requires ParseInt(a) == Some(h) && ParseInt(b) == Some(m) && SecondsField(c) == Some(sec)
    requires v == h * 36000 + m * 600 + sec
    ensures TimeToTenths(text) == Some(v)
  {
  }

  lemma ClockRoundTrip(t: int, width: nat)
    requires width == 4 || width == 5
    ensures TimeToTenths(Clock(t, width)) == Some(t)
  {
    SecondsFieldOfText(t % 600, width);
    ClockArithmetic(t);
    TimeOfThree(Clock(t, width), Pad2Int(t / 36000), Pad2((t % 36000) / 600), SecondsText(t % 600, width),
      t / 36000, (t % 36000) / 600, t % 600, t);
  }

  /** The spelling of the three HH:MM:SS fields of t tenths, the seconds
      field `width` characters wide when it has a fraction. Hours are the
      whole hours in at least two digits, padded with zeros only up to two;
      minutes are two digits below 60; whole seconds are two digits; a
      fraction is width - 2 digits, the point and the tenths digit. */
  predicate ClockFields(t: int, width: nat, parts: seq<string>)
  {
    && |parts| == 3
    && ParseInt(parts[0]) == Some(t / 36000) && |parts[0]| >= 2
    && (t >= 0 ==> AllDigits(parts[0]) && (|parts[0]| == 2 || parts[0][0] != '0'))
    && (t < 0 ==> parts[0][0] == '-')
    && ParseInt(parts[1]) == Some((t % 36000) / 600) && |parts[1]| == 2 && AllDigits(parts[1])
    && (t % 36000) / 600 < 60
    && (t % 10 == 0 ==> ParseInt(parts[2]) == Some((t % 600) / 10) && |parts[2]| == 2 && AllDigits(parts[2]))
    && (t % 10 != 0 ==>
          && DecimalTenths(parts[2]) == Some(t % 600) && |parts[2]| == width
          && var halves := Split(parts[2], '.');
          && |halves| == 2 && |halves[0]| == width - 2 && AllDigits(halves[0])
          && halves[1] == [DigitChar(t % 10)])
  }

  /** The shape of HH:MM:SS for a seconds field of 4 or 5 characters. */
  lemma ClockShape(t: int, width: nat)
    requires width == 4 || width == 5
    ensures ClockFields(t, width, Split(Clock(t, width), ':'))
  {
    ClockArithmetic(t);
    var rem := t % 600;
    if rem % 10 != 0 {
      FractionText(rem, width);
    } else {
      assert SecondsText(rem, width) == Pad2(rem / 10);
    }
    assert t % 10 == rem % 10 by {
      DivMod10(t, 60 * (t / 600) + rem / 10, rem % 10);
    }
  }

  /** The corrected HH:MM:SS: a fraction shows as one digit after two
      whole-second digits, like the other two fields. */
  lemma TimeFields(t: int)
    ensures ClockFields(t, 4, Split(TenthsToTime(t), ':'))
  {
    ClockShape(t, 4);
  }

  /** HH:MM:SS as written: the same hour, minute and whole-second fields,
      but a fractional seconds field of five characters, three of them
      digits before the point. */
  lemma TimeFieldsAsWritten(t: int)
    ensures ClockFields(t, 5, Split(TenthsToTimeAsWritten(t), ':'))
  {
    ClockShape(t, 5);
  }

  /** The two formatters agree exactly on whole seconds; with a fraction
      the code as written gives one more digit. */
  lemma FormattersAgree(t: int)
    ensures t % 10 == 0 <==> TenthsToTime(t) == TenthsToTimeAsWritten(t)
  {
    var rem := t % 600;
    assert t % 10 == rem % 10 by {
      DivMod10(t, 60 * (t / 600) + rem / 10, rem % 10);
    }
    if t % 10 == 0 {
      assert SecondsText(rem, 4) == SecondsText(rem, 5);
    } else {
      TimeFields(t);
      TimeFieldsAsWritten(t);
    }
  }

  /** A clock text assembled from its three fields. */
  lemma ClockText(t: int, width: nat, h: string, m: string, sec: string, text: string)
    requires Pad2Int(t / 36000) == h && Pad2((t % 36000) / 600) == m
    requires t % 600 < 600 && SecondsText(t % 600, width) == sec
    requires h + ":" + m + ":" + sec == text
    ensures Clock(t, width) == text
  {
  }

  /** The hour and minute fields of 309.5 seconds, and the tenths that
      remain. */
  lemma FieldsOf3095()
    ensures Pad2Int(3095 / 36000) == "00" && Pad2((3095 % 36000) / 600) == "05" && 3095 % 600 == 95
  {
    assert 3095 / 36000 == 0 && 3095 % 36000 == 3095 && 3095 / 600 == 5 && 3095 % 600 == 95;
    assert Pad2Int(0) == "00" by { assert NatToString(0) == "0"; assert Zeros(1) == "0"; }
    assert Pad2(5) == "05" by { assert NatToString(5) == "5"; assert Zeros(1) == "0"; }
  }

  lemma SecondsOf95(width: nat, text: string)
    requires ZeroPad("9.5", width) == text
    ensures SecondsText(95, width) == text
  {
    assert 95 % 10 == 5 && 95 / 10 == 9;
    assert NatToString(9) == "9";
    assert DigitChar(5) == '5';
    assert "9" + "." + ['5'] == "9.5";
  }

  /** "9.5" padded with zeros to a width of k + 3. */
  lemma PaddedPoint(k: nat, z: string, text: string)
    requires z == Zeros(k) && z + "9.5" == text
    ensures ZeroPad("9.5", k + 3) == text
  {
  }

  lemma ExampleSpellings()
    ensures "00" + "9.5" == "009.5" && "00" + ":" + "05" + ":" + "009.5" == "00:05:009.5"
    ensures "0" + "9.5" == "09.5" && "00" + ":" + "05" + ":" + "09.5" == "00:05:09.5"
    ensures Zeros(1) == "0" && Zeros(2) == "00"
  {
    assert Zeros(1) == "0";
  }

  /** 309.5 seconds: the code writes "00:05:009.5" where "00:05:09.5" is meant. */
  lemma AsWrittenExample()
    ensures TenthsToTimeAsWritten(3095) == "00:05:009.5"
  {
    ExampleSpellings();
    FieldsOf3095();
    PaddedPoint(2, "00", "009.5");
    SecondsOf95(5, "009.5");
    ClockText(3095, 5, "00", "05", "009.5", "00:05:009.5");
  }

  /** With the corrected width, 309.5 seconds is "00:05:09.5". */
  lemma CorrectedExample()
    ensures TenthsToTime(3095) == "00:05:09.5"
  {
    ExampleSpellings();
    FieldsOf3095();
    PaddedPoint(1, "0", "09.5");
    SecondsOf95(4, "09.5");
    ClockText(3095, 4, "00", "05", "09.5", "00:05:09.5");
  }

  /** time_to_seconds on "H:MM:SS" with integer fields is H*3600 + MM*60 + SS. */
  lemma TimeOfIntegerFields(h: string, m: string, s: string)
    requires ParseInt(h).Some? && ParseInt(m).Some? && ParseInt(s).Some?
    ensures TimeToTenths(h + ":" + m + ":" + s) ==
      Some(10 * (ParseInt(h).value * 3600 + ParseInt(m).value * 60 + ParseInt(s).value))
  {
    SplitThree(h, m, s, ':');
  }

  /** Only the first three fields are read. */
  lemma SameFirstFields(a: string, b: string, h: string, m: string, s: string, restA: seq<string>, restB: seq<string>)
    requires Split(a, ':') == [h, m, s] + restA && Split(b, ':') == [h, m, s] + restB
    ensures TimeToTenths(a) == TimeToTenths(b)
  {
    var pa, pb := Split(a, ':'), Split(b, ':');
    assert |pa| >= 3 && pa[0] == h && pa[1] == m && pa[2] == s;
    assert |pb| >= 3 && pb[0] == h && pb[1] == m && pb[2] == s;
  }

  lemma SplitFour(h: string, m: string, s: string, rest: string)
    requires ':' !in h && ':' !in m && ':' !in s
    ensures Split(h + ":" + m + ":" + s + ":" + rest, ':') == [h, m, s] + Split(rest, ':')
  {
    assert h + ":" + m + ":" + s + ":" + rest == h + [':'] + (m + [':'] + (s + [':'] + rest));
    SplitAtSeparator(h, ':', m + [':'] + (s + [':'] + rest));
    SplitAtSeparator(m, ':', s + [':'] + rest);
    SplitAtSeparator(s, ':', rest);
  }

  lemma SplitThreeFields(h: string, m: string, s: string)
    requires ':' !in h && ':' !in m && ':' !in s
    ensures Split(h + ":" + m + ":" + s, ':') == [h, m, s] + []
  {
    SplitThree(h, m, s, ':');
    assert [h, m, s] + [] == [h, m, s];
  }

  /** Anything after a third ':' is ignored rather than rejected. */
  lemma ExtraFieldsIgnored(h: string, m: string, s: string, rest: string)
    requires ':' !in h && ':' !in m && ':' !in s
    ensures TimeToTenths(h + ":" + m + ":" + s + ":" + rest) == TimeToTenths(h + ":" + m + ":" + s)
  {
    SplitFour(h, m, s, rest);
    SplitThreeFields(h, m, s);
    SameFirstFields(h + ":" + m + ":" + s + ":" + rest, h + ":" + m + ":" + s, h, m, s, Split(rest, ':'), []);
  }

  /** Fewer than three fields is an error. */
  lemma TooFewFields(h: string, m: string)
    requires ':' !in h && ':' !in m
    ensures TimeToTenths(h + ":" + m) == None
  {
    SplitAtSeparator(h, ':', m);
    SplitNoSeparator(m, ':');
  }
}
