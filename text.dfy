/** The pieces of Python's text handling the dashboard leans on: int() and
    str() on decimal text, the zero-padding format specifiers, str.split,
    str.replace with an empty replacement, and clamped slicing. */
module Text {
  import opened Wrappers

  predicate IsDigit(c: char) { '0' <= c <= '9' }

  /** Every character is a decimal digit; read from the end, as DigitsValue
      reads the string. */
  predicate AllDigits(s: string)
  {
    s == [] || (AllDigits(s[..|s| - 1]) && IsDigit(s[|s| - 1]))
  }

  lemma {:induction false} AllDigitsAt(s: string, i: nat)
    requires AllDigits(s) && i < |s|
    ensures IsDigit(s[i])
  {
    if i < |s| - 1 {
      AllDigitsAt(s[..|s| - 1], i);
    }
  }

  /** A digit string holds no character that is not a digit. */
  lemma {:induction false} AllDigitsExclude(s: string, c: char)
    requires AllDigits(s) && !IsDigit(c)
    ensures c !in s
  {
    if s != [] {
      AllDigitsExclude(s[..|s| - 1], c);
      assert s == s[..|s| - 1] + [s[|s| - 1]];
    }
  }

  lemma NoPunctuation(s: string)
    requires AllDigits(s)
    ensures ':' !in s && '.' !in s && ',' !in s
  {
    AllDigitsExclude(s, ':');
    AllDigitsExclude(s, '.');
    AllDigitsExclude(s, ',');
  }

  function DigitValue(c: char): (d: nat)
    requires IsDigit(c)
    ensures d < 10
  {
    c as int - '0' as int
  }

  function DigitChar(d: nat): (c: char)
    requires d < 10
    ensures IsDigit(c) && DigitValue(c) == d
  {
    ('0' as int + d) as char
  }

  function Pow10(n: nat): (p: nat)
    ensures p >= 1
  {
    if n == 0 then 1 else 10 * Pow10(n - 1)
  }

  /** The value of a string of decimal digits, read most significant first. */
  function DigitsValue(s: string): nat
    requires AllDigits(s)
  {
    if s == [] then 0 else DigitsValue(s[..|s| - 1]) * 10 + DigitValue(s[|s| - 1])
  }

  lemma {:induction false} DigitsValueConcat(a: string, b: string)
    requires AllDigits(a) && AllDigits(b)
    ensures AllDigits(a + b)
    ensures DigitsValue(a + b) == DigitsValue(a) * Pow10(|b|) + DigitsValue(b)
  {
    if b == [] {
      assert a + b == a;
    } else {
      var b' := b[..|b| - 1];
      var c := b[|b| - 1];
      ConcatInit(a, b', c, b);
      DigitsValueConcat(a, b');
      DigitsLast(a + b, a + b', c);
      DigitsLast(b, b', c);
      Distribute(DigitsValue(a), Pow10(|b'|), DigitsValue(b'), DigitValue(c));
    }
  }

  lemma ConcatInit(a: string, b': string, c: char, b: string)
    requires b == b' + [c]
    ensures (a + b)[..|a + b| - 1] == a + b' && (a + b)[|a + b| - 1] == c
  {
    assert a + b == (a + b') + [c];
  }

  lemma Distribute(x: int, p: int, y: int, d: int)
    ensures (x * p + y) * 10 + d == x * (p * 10) + (y * 10 + d)
  {
  }

  /** One digit more at the end: ten times the value, plus the digit. */
  lemma DigitsLast(s: string, init: string, c: char)
    requires |s| >= 1 && s[..|s| - 1] == init && s[|s| - 1] == c
    requires AllDigits(init) && IsDigit(c)
    ensures AllDigits(s) && DigitsValue(s) == DigitsValue(init) * 10 + DigitValue(c)
  {
  }

  /** str(n) for a non-negative integer: the shortest decimal spelling. */
  function NatToString(n: nat): (s: string)
    ensures 1 <= |s| && AllDigits(s)
    ensures DigitsValue(s) == n
    ensures n < 10 ==> |s| == 1
    ensures n < 100 ==> |s| <= 2
    ensures n < 1000 ==> |s| <= 3
    ensures (s[0] == '0') == (n == 0)
  {
    if n < 10 then [DigitChar(n)]
    else
      var s := NatToString(n / 10) + [DigitChar(n % 10)];
      assert s[..|s| - 1] == NatToString(n / 10);
      assert s[0] == NatToString(n / 10)[0];
      s
  }

  /** int(s): an optional sign followed by at least one decimal digit. */
  function ParseInt(s: string): (r: Option<int>)
    ensures r.Some? ==> ':' !in s && '.' !in s && ',' !in s
  {
    if |s| >= 2 && (s[0] == '-' || s[0] == '+') && AllDigits(s[1..]) then
      NoPunctuation(s[1..]);
      assert s == [s[0]] + s[1..];
      Some(if s[0] == '-' then -(DigitsValue(s[1..]) as int) else DigitsValue(s[1..]) as int)
    else if |s| >= 1 && AllDigits(s) then
      NoPunctuation(s);
      Some(DigitsValue(s))
    else
      None
  }

  lemma DigitsParse(s: string)
    requires 1 <= |s| && AllDigits(s)
    ensures ParseInt(s) == Some(DigitsValue(s))
  {
    AllDigitsAt(s, 0);
  }

  /** str(n) for any integer. */
  function IntToString(n: int): (s: string)
    ensures ParseInt(s) == Some(n)
    ensures n >= 0 ==> AllDigits(s) && (|s| == 1 || s[0] != '0')
    ensures n < 0 ==> 2 <= |s| && s[0] == '-' && AllDigits(s[1..]) && s[1] != '0'
  {
    if n < 0 then
      var s := "-" + NatToString(-n);
      assert s[1..] == NatToString(-n);
      s
    else
      var s := NatToString(n);
      DigitsParse(s);
      s
  }

  function Zeros(k: nat): (z: string)
    ensures |z| == k && AllDigits(z) && DigitsValue(z) == 0
  {
    if k == 0 then []
    else
      var z := Zeros(k - 1) + ['0'];
      assert z[..|z| - 1] == Zeros(k - 1);
      z
  }

  /** Left zero-padding to a minimum width, as the `0<width>` format flag does
      for a non-negative number. */
  function ZeroPad(s: string, width: nat): (r: string)
    ensures |r| == if |s| >= width then |s| else width
    ensures AllDigits(s) ==> AllDigits(r) && DigitsValue(r) == DigitsValue(s)
  {
    if |s| >= width then s
    else
      ZerosPrefix(width - |s|, s);
      Zeros(width - |s|) + s
  }

  lemma ZerosPrefix(k: nat, s: string)
    ensures AllDigits(s) ==> AllDigits(Zeros(k) + s) && DigitsValue(Zeros(k) + s) == DigitsValue(s)
  {
    if AllDigits(s) { DigitsValueConcat(Zeros(k), s); }
  }

  /** `{n:02}` for a non-negative integer. */
  function Pad2(n: nat): (r: string)
    ensures 2 <= |r| && AllDigits(r) && DigitsValue(r) == n
    ensures n < 100 ==> |r| == 2
    ensures |r| == 2 || r[0] != '0'
    ensures ParseInt(r) == Some(n)
  {
    var r := ZeroPad(NatToString(n), 2);
    DigitsParse(r);
    r
  }

  /** `{n:02}` for any integer: the sign counts towards the width. */
  function Pad2Int(n: int): (r: string)
    ensures 2 <= |r|
    ensures n >= 0 ==> AllDigits(r) && (|r| == 2 || r[0] != '0')
    ensures n < 0 ==> r[0] == '-' && AllDigits(r[1..])
    ensures ParseInt(r) == Some(n)
  {
    if n < 0 then IntToString(n) else Pad2(n)
  }

  /** str.split(sep): the pieces between occurrences of sep, always at least one. */
  function Split(s: string, sep: char): (parts: seq<string>)
    ensures |parts| >= 1
  {
    if s == [] then [[]]
    else
      var rest := Split(s[1..], sep);
      if s[0] == sep then [[]] + rest
      else [[s[0]] + rest[0]] + rest[1..]
  }

  /** No piece of a split holds the separator. */
  lemma {:induction false} SplitExcludes(s: string, sep: char)
    ensures forall i :: 0 <= i < |Split(s, sep)| ==> sep !in Split(s, sep)[i]
  {
    if s != [] {
      SplitExcludes(s[1..], sep);
      var rest := Split(s[1..], sep);
      if s[0] != sep {
        assert sep !in [s[0]] + rest[0];
        assert Split(s, sep) == [[s[0]] + rest[0]] + rest[1..];
      }
    }
  }

  /** sep.join(parts), the inverse of Split. */
  function Join(parts: seq<string>, sep: char): string
  {
    if |parts| <= 1 then (if parts == [] then [] else parts[0])
    else parts[0] + [sep] + Join(parts[1..], sep)
  }

  lemma {:induction false} SplitJoin(s: string, sep: char)
    ensures Join(Split(s, sep), sep) == s
  {
    if s != [] {
      var rest := Split(s[1..], sep);
      SplitJoin(s[1..], sep);
      if s[0] == sep {
        assert Split(s, sep)[1..] == rest;
      } else {
        var parts := Split(s, sep);
        if |rest| == 1 {
          assert parts == [[s[0]] + rest[0]];
        } else {
          assert parts[1..] == rest[1..];
          assert Join(rest, sep) == rest[0] + [sep] + Join(rest[1..], sep);
        }
      }
    }
  }

  /** Two or more pieces only when the separator occurs. */
  lemma SplitPieces(s: string, sep: char)
    ensures |Split(s, sep)| >= 2 ==> sep in s
  {
    if sep !in s {
      SplitNoSeparator(s, sep);
    }
  }

  lemma {:induction false} SplitNoSeparator(s: string, sep: char)
    requires sep !in s
    ensures Split(s, sep) == [s]
  {
    if s != [] {
      SplitNoSeparator(s[1..], sep);
      assert [s[0]] + s[1..] == s;
    }
  }

  lemma {:induction false} SplitAtSeparator(a: string, sep: char, b: string)
    requires sep !in a
    ensures Split(a + [sep] + b, sep) == [a] + Split(b, sep)
  {
    var s := a + [sep] + b;
    if a == [] {
      assert s[1..] == b;
    } else {
      assert s[1..] == a[1..] + [sep] + b;
      SplitAtSeparator(a[1..], sep, b);
      assert [a[0]] + a[1..] == a;
    }
  }

  lemma SplitThree(a: string, b: string, c: string, sep: char)
    requires sep !in a && sep !in b && sep !in c
    ensures Split(a + [sep] + b + [sep] + c, sep) == [a, b, c]
  {
    assert a + [sep] + b + [sep] + c == a + [sep] + (b + [sep] + c);
    SplitAtSeparator(a, sep, b + [sep] + c);
    SplitAtSeparator(b, sep, c);
    SplitNoSeparator(c, sep);
  }

  /** str.replace(c, ''): every occurrence of c deleted, the rest kept in order. */
  function RemoveAll(s: string, c: char): (r: string)
    ensures c !in r && |r| <= |s|
    ensures c !in s ==> r == s
    ensures multiset(r) == multiset(s)[c := 0]
  {
    if s == [] then []
    else
      assert s == [s[0]] + s[1..];
      var rest := RemoveAll(s[1..], c);
      var r := (if s[0] == c then [] else [s[0]]) + rest;
      assert multiset(s) == multiset{s[0]} + multiset(s[1..]);
      assert multiset(r) == multiset(if s[0] == c then [] else [s[0]]) + multiset(rest);
      r
  }

  lemma {:induction false} RemoveAllConcat(a: string, b: string, c: char)
    ensures RemoveAll(a + b, c) == RemoveAll(a, c) + RemoveAll(b, c)
  {
    if a != [] {
      assert (a + b)[1..] == a[1..] + b;
      RemoveAllConcat(a[1..], b, c);
    } else {
      assert a + b == b;
    }
  }

  function Min(a: int, b: int): int { if a <= b then a else b }

  /** s[lo:hi] with Python's clamping of out-of-range bounds. */
  function Slice(s: string, lo: nat, hi: nat): (r: string)
    ensures |r| == if lo < hi && lo < |s| then Min(hi, |s|) - lo else 0
    ensures forall k :: 0 <= k < |r| ==> r[k] == s[lo + k]
  {
    var a := Min(lo, |s|);
    var b := Min(hi, |s|);
    if a <= b then s[a..b] else []
  }
}
