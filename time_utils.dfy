/** The time-string helpers of the flash detector: `time_str_to_seconds`,
    which reads "M:S" or "S" and yields 0 for anything it cannot read, and
    `format_time`, which prints seconds as "MM:SS.ss".  Numbers are exact
    reals read from a restricted decimal grammar (optional sign, digits,
    optional fraction). */
module TimeUtils {
  import opened Wrappers

  // ---------------------------------------------------------------------
  // Decimal digits
  // ---------------------------------------------------------------------

  predicate IsDigit(c: char) { '0' <= c <= '9' }

  predicate AllDigits(s: string) { forall i :: 0 <= i < |s| ==> IsDigit(s[i]) }

  function DigitValue(c: char): nat
    requires IsDigit(c)
  {
    c as int - '0' as int
  }

  function DigitChar(d: nat): (c: char)
    requires d < 10
    ensures IsDigit(c) && DigitValue(c) == d
  {
    ('0' as int + d) as char
  }

  function Pow10(n: nat): (p: nat)
    ensures p >= 1
  {
    if n == 0 then 1 else 10 * Pow10(n - 1)
  }

  /** The value of a run of decimal digits, most significant first; "" is 0. */
  function DigitsValue(s: string): nat
    requires AllDigits(s)
  {
    if s == [] then 0 else DigitsValue(s[..|s| - 1]) * 10 + DigitValue(s[|s| - 1])
  }

  lemma {:induction false} DigitsValueAppend(a: string, b: string)
    requires AllDigits(a) && AllDigits(b)
    ensures AllDigits(a + b)
    ensures DigitsValue(a + b) == DigitsValue(a) * Pow10(|b|) + DigitsValue(b)
  {
    if b == [] {
      assert a + b == a;
    } else {
      var b' := b[..|b| - 1];
      var d := DigitValue(b[|b| - 1]);
      assert (a + b)[..|a + b| - 1] == a + b';
      DigitsValueAppend(a, b');
      ShiftOneDigit(DigitsValue(a), Pow10(|b'|), DigitsValue(b'), d);
    }
  }

  lemma ShiftOneDigit(x: int, p: int, y: int, d: int)
    ensures (x * p + y) * 10 + d == x * (10 * p) + (y * 10 + d)
  {
  }

  /** `k` zero characters. */
  function Zeros(k: nat): (z: string)
    ensures |z| == k && AllDigits(z)
  {
    if k == 0 then "" else Zeros(k - 1) + "0"
  }

  lemma {:induction false} ZerosValue(k: nat)
    ensures DigitsValue(Zeros(k)) == 0
  {
    if k > 0 {
      assert Zeros(k)[..k - 1] == Zeros(k - 1);
      ZerosValue(k - 1);
    }
  }

  /** The decimal digits of `n` with no leading zero ("0" for zero), as
      Python's `str` of a non-negative int prints them. */
  function Digits(n: nat): (s: string)
    ensures 1 <= |s| && AllDigits(s)
    ensures DigitsValue(s) == n
    ensures n < 10 ==> |s| == 1
    ensures 10 <= n < 100 ==> |s| == 2
  {
    if n < 10 then [DigitChar(n)]
    else
      var s := Digits(n / 10) + [DigitChar(n % 10)];
      assert s[..|s| - 1] == Digits(n / 10);
      s
  }

  /** Left padding with '0' up to `width` characters (the `0` flag of a
      format spec). */
  function ZeroPad(s: string, width: nat): (r: string)
    ensures |r| == if |s| >= width then |s| else width
  {
    if |s| >= width then s else Zeros(width - |s|) + s
  }

  lemma ZeroPadValue(s: string, width: nat)
    requires AllDigits(s)
    ensures AllDigits(ZeroPad(s, width))
    ensures DigitsValue(ZeroPad(s, width)) == DigitsValue(s)
  {
    if |s| < width {
      var z := Zeros(width - |s|);
      ZerosValue(width - |s|);
      LeadingZeros(z, s);
    }
  }

  /** Leading zeros do not change the value of a digit string. */
  lemma LeadingZeros(z: string, s: string)
    requires AllDigits(z) && DigitsValue(z) == 0 && AllDigits(s)
    ensures AllDigits(z + s) && DigitsValue(z + s) == DigitsValue(s)
  {
    DigitsValueAppend(z, s);
  }

  // ---------------------------------------------------------------------
  // str.split with a one-character separator
  // ---------------------------------------------------------------------

  function Occurrences(s: string, c: char): nat
  {
    if s == [] then 0 else (if s[0] == c then 1 else 0) + Occurrences(s[1..], c)
  }

  lemma {:induction false} OccurrencesAbsent(s: string, c: char)
    requires c !in s
    ensures Occurrences(s, c) == 0
  {
    if s != [] {
      assert c !in s[1..] by {
        forall i | 0 <= i < |s[1..]| ensures s[1..][i] != c { assert s[1..][i] == s[i + 1]; }
      }
      OccurrencesAbsent(s[1..], c);
    }
  }

  /** The parts joined back together with `sep` between them: the inverse of
      `SplitOn`. */
  function Join(parts: seq<string>, sep: char): string
    requires |parts| >= 1
  {
    if |parts| == 1 then parts[0] else parts[0] + [sep] + Join(parts[1..], sep)
  }

  /** Python's `s.split(sep)` for a one-character separator: one more part
      than there are separators, none of them containing `sep`, and joining
      them gives back `s`. */
  function SplitOn(s: string, sep: char): (parts: seq<string>)
    ensures |parts| == Occurrences(s, sep) + 1
    ensures forall i :: 0 <= i < |parts| ==> sep !in parts[i]
    ensures Join(parts, sep) == s
  {
    if s == [] then [[]]
    else
      var rest := SplitOn(s[1..], sep);
      assert s == [s[0]] + s[1..];
      if s[0] == sep then
        JoinNewPart(rest, sep);
        [[]] + rest
      else
        JoinExtendPart(s[0], rest, sep);
        [[s[0]] + rest[0]] + rest[1..]
  }

  /** A separator in front starts a new, empty first part. */
  lemma JoinNewPart(rest: seq<string>, sep: char)
    requires |rest| >= 1
    ensures Join([[]] + rest, sep) == [sep] + Join(rest, sep)
  {
    assert ([[]] + rest)[1..] == rest;
  }

  /** Any other character in front extends the first part. */
  lemma JoinExtendPart(c: char, rest: seq<string>, sep: char)
    requires |rest| >= 1
    ensures Join([[c] + rest[0]] + rest[1..], sep) == [c] + Join(rest, sep)
  {
    var parts := [[c] + rest[0]] + rest[1..];
    if |rest| > 1 { assert parts[1..] == rest[1..]; }
  }

  lemma SeparatorAt(x: string, y: string, sep: char)
    requires sep !in x
    ensures (x + [sep] + y)[|x|] == sep
    ensures forall i :: 0 <= i < |x| ==> (x + [sep] + y)[i] != sep
  {
    forall i | 0 <= i < |x| ensures (x + [sep] + y)[i] != sep {
      assert (x + [sep] + y)[i] == x[i];
    }
  }

  lemma SplitPrefix(a: string, b: string, c: string, d: string, sep: char)
    requires sep !in a && sep !in c
    requires a + [sep] + b == c + [sep] + d
    ensures a == c && b == d
  {
    SeparatorAt(a, b, sep);
    SeparatorAt(c, d, sep);
    assert |a| == |c|;
    assert a == (a + [sep] + b)[..|a|];
    assert c == (c + [sep] + d)[..|c|];
    assert b == (a + [sep] + b)[|a| + 1..];
    assert d == (c + [sep] + d)[|c| + 1..];
  }

  lemma {:induction false} JoinInjective(p: seq<string>, q: seq<string>, sep: char)
    requires |p| >= 1 && |q| >= 1
    requires forall i :: 0 <= i < |p| ==> sep !in p[i]
    requires forall i :: 0 <= i < |q| ==> sep !in q[i]
    requires Join(p, sep) == Join(q, sep)
    ensures p == q
    decreases |p|
  {
    if |p| > 1 && |q| > 1 {
      SplitPrefix(p[0], Join(p[1..], sep), q[0], Join(q[1..], sep), sep);
      JoinInjective(p[1..], q[1..], sep);
      assert p == [p[0]] + p[1..];
      assert q == [q[0]] + q[1..];
    }
  }

  /** Splitting what `Join` built gives back the parts: the other direction
      of the `SplitOn`/`Join` round trip. */
  lemma SplitJoin(parts: seq<string>, sep: char)
    requires |parts| >= 1
    requires forall i :: 0 <= i < |parts| ==> sep !in parts[i]
    ensures SplitOn(Join(parts, sep), sep) == parts
  {
    JoinInjective(SplitOn(Join(parts, sep), sep), parts, sep);
  }

  lemma SplitTwo(a: string, b: string, sep: char)
    requires sep !in a && sep !in b
    ensures SplitOn(a + [sep] + b, sep) == [a, b]
  {
    assert Join([a, b], sep) == a + [sep] + b by {
      assert [a, b][1..] == [b];
    }
    SplitJoin([a, b], sep);
  }

  // ---------------------------------------------------------------------
  // Number parsing: the part of Python's float() the model keeps
  // ---------------------------------------------------------------------

  /** `n` shifted `k` decimal places to the right: the value of `k`
      fraction digits whose digit string reads as `n`. */
  function Scaled(n: nat, k: nat): (r: real)
    ensures r >= 0.0
  {
    if k == 0 then n as real else Scaled(n, k - 1) / 10.0
  }

  /** A decimal numeral as `float` reads it: its sign, the value of the
      digits before the point, the value of the digits after it and how many
      digits follow the point. */
  datatype Decimal = Decimal(negative: bool, units: nat, fraction: nat, places: nat)
  {
    /** The exact number the numeral denotes. */
    function Value(): real
    {
      var magnitude := units as real + Scaled(fraction, places);
      if negative then -magnitude else magnitude
    }
  }

  /** An unsigned decimal: digits, or digits '.' digits with at least one
      digit on either side of the point ("5", "5.", ".5", "5.25"). */
  function ParseUnsigned(s: string): (r: Option<Decimal>)
    ensures r.Some? ==> s != [] && !r.value.negative
    ensures s != [] && AllDigits(s) ==> r == Some(Decimal(false, DigitsValue(s), 0, 0))
  {
    DigitsHaveOnePart(s);
    var parts := SplitOn(s, '.');
    if |parts| == 1 then
      if s != [] && AllDigits(s) then Some(Decimal(false, DigitsValue(s), 0, 0)) else None
    else if |parts| == 2 then
      var whole, frac := parts[0], parts[1];
      if AllDigits(whole) && AllDigits(frac) && (whole != [] || frac != []) then
        Some(Decimal(false, DigitsValue(whole), DigitsValue(frac), |frac|))
      else None
    else None
  }

  lemma DigitsHaveOnePart(s: string)
    ensures AllDigits(s) ==> |SplitOn(s, '.')| == 1
  {
    if AllDigits(s) {
      DigitsNoSeparator(s, '.');
      OccurrencesAbsent(s, '.');
    }
  }

  predicate HasSign(s: string) { s != [] && (s[0] == '+' || s[0] == '-') }

  /** What follows an optional leading sign. */
  function Magnitude(s: string): (m: string)
    ensures HasSign(s) ==> m == s[1..]
    ensures !HasSign(s) ==> m == s
  {
    if HasSign(s) then s[1..] else s
  }

  /** `float(s)` on the restricted grammar: an optional '+' or '-' sign before
      an unsigned decimal.  `None` stands for the ValueError Python raises. */
  function ParseNumber(s: string): (r: Option<Decimal>)
    ensures r.Some? ==> s != [] && (r.value.negative <==> s[0] == '-')
    ensures s != [] && AllDigits(s) ==> r == Some(Decimal(false, DigitsValue(s), 0, 0))
  {
    match ParseUnsigned(Magnitude(s))
    case Some(d) => Some(d.(negative := s != [] && s[0] == '-'))
    case None => None
  }

  // ---------------------------------------------------------------------
  // The numeral grammar, stated character by character
  // ---------------------------------------------------------------------

  /** Every character is a digit or a '.'. */
  predicate DigitsOrPoints(m: string)
  {
    forall i :: 0 <= i < |m| ==> IsDigit(m[i]) || m[i] == '.'
  }

  predicate HasDigit(m: string)
  {
    exists i :: 0 <= i < |m| && IsDigit(m[i])
  }

  /** An unsigned numeral: digits and at most one '.', with at least one
      digit somewhere. */
  predicate IsUnsignedNumeral(m: string)
  {
    DigitsOrPoints(m) && Occurrences(m, '.') <= 1 && HasDigit(m)
  }

  /** The texts the restricted `float` accepts: an optional '+' or '-', then
      an unsigned numeral. */
  predicate IsNumeral(s: string)
  {
    if s != [] && (s[0] == '+' || s[0] == '-') then IsUnsignedNumeral(s[1..])
    else IsUnsignedNumeral(s)
  }

  lemma {:induction false} OccurrencesPresent(s: string, c: char)
    requires c in s
    ensures Occurrences(s, c) >= 1
  {
    if s[0] != c {
      assert c in s[1..] by {
        var i :| 0 <= i < |s| && s[i] == c;
        assert s[1..][i - 1] == c;
      }
      OccurrencesPresent(s[1..], c);
    }
  }

  /** Without a '.', "digits or points" is "digits". */
  lemma PointFree(a: string)
    requires '.' !in a
    ensures DigitsOrPoints(a) <==> AllDigits(a)
    ensures AllDigits(a) ==> (HasDigit(a) <==> a != [])
  {
    if AllDigits(a) && a != [] {
      assert IsDigit(a[0]);
    }
  }

  /** The characters of `a + "." + b` are those of `a`, a '.', and those of `b`. */
  lemma AroundPoint(a: string, b: string)
    ensures DigitsOrPoints(a + "." + b) <==> DigitsOrPoints(a) && DigitsOrPoints(b)
    ensures HasDigit(a + "." + b) <==> HasDigit(a) || HasDigit(b)
  {
    var m := a + "." + b;
    assert forall i :: 0 <= i < |a| ==> m[i] == a[i];
    assert forall i :: 0 <= i < |b| ==> m[|a| + 1 + i] == b[i];
    assert m[|a|] == '.';
    if HasDigit(m) {
      var i :| 0 <= i < |m| && IsDigit(m[i]);
      if i > |a| { assert IsDigit(b[i - |a| - 1]); }
    }
    if DigitsOrPoints(a) && DigitsOrPoints(b) {
      forall i | 0 <= i < |m| ensures IsDigit(m[i]) || m[i] == '.' {
        if i > |a| { assert m[i] == b[i - |a| - 1]; }
      }
    }
  }

  /** `ParseUnsigned` reads exactly the unsigned numerals. */
  lemma UnsignedGrammar(m: string)
    ensures ParseUnsigned(m).Some? <==> IsUnsignedNumeral(m)
  {
    var parts := SplitOn(m, '.');
    if |parts| == 1 {
      if '.' in m { OccurrencesPresent(m, '.'); }
      PointFree(m);
      DigitsHaveOnePart(m);
    } else if |parts| == 2 {
      var whole, frac := parts[0], parts[1];
      assert parts[1..] == [frac];
      assert Join(parts, '.') == whole + ['.'] + Join([frac], '.');
      assert m == whole + "." + frac;
      AroundPoint(whole, frac);
      PointFree(whole);
      PointFree(frac);
      DigitsHaveOnePart(m);
    } else {
      DigitsHaveOnePart(m);
    }
  }

  /** `float` on the restricted grammar succeeds exactly on the numerals. */
  lemma NumberGrammar(s: string)
    ensures ParseNumber(s).Some? <==> IsNumeral(s)
  {
    UnsignedGrammar(Magnitude(s));
  }

  // ---------------------------------------------------------------------
  // time_str_to_seconds
  // ---------------------------------------------------------------------

  /** `time_str_to_seconds`: "M:S" gives M*60+S, a plain number is returned
      as it is, and every failure (a part that is not a number, the wrong
      number of parts) gives 0. */
  function TimeStrToSeconds(timeStr: string): (r: real)
    ensures Occurrences(timeStr, ':') >= 2 ==> r == 0.0
    ensures ':' !in timeStr && ParseNumber(timeStr).Some? ==> r == ParseNumber(timeStr).value.Value()
    ensures ':' !in timeStr && ParseNumber(timeStr).None? ==> r == 0.0
  {
    if ':' in timeStr then
      var parts := SplitOn(timeStr, ':');
      if |parts| != 2 then 0.0
      else
        match (ParseNumber(parts[0]), ParseNumber(parts[1]))
        case (Some(minutes), Some(seconds)) => minutes.Value() * 60.0 + seconds.Value()
        case _ => 0.0
    else
      OccurrencesAbsent(timeStr, ':');
      match ParseNumber(timeStr)
      case Some(d) => d.Value()
      case None => 0.0
  }

  /** A string with exactly one ':' between two colon-free parts is read as
      minutes and seconds; if either part is not a number the result is 0. */
  lemma ColonForm(minutes: string, seconds: string)
    requires ':' !in minutes && ':' !in seconds
    ensures TimeStrToSeconds(minutes + ":" + seconds) ==
      if ParseNumber(minutes).Some? && ParseNumber(seconds).Some?
      then ParseNumber(minutes).value.Value() * 60.0 + ParseNumber(seconds).value.Value()
      else 0.0
  {
    var s := minutes + ":" + seconds;
    assert s[|minutes|] == ':';
    SplitTwo(minutes, seconds, ':');
    TwoFields(s, minutes, seconds);
  }

  lemma TwoFields(s: string, minutes: string, seconds: string)
    requires ':' in s && SplitOn(s, ':') == [minutes, seconds]
    ensures TimeStrToSeconds(s) ==
      if ParseNumber(minutes).Some? && ParseNumber(seconds).Some?
      then ParseNumber(minutes).value.Value() * 60.0 + ParseNumber(seconds).value.Value()
      else 0.0
  {
  }

  /** Without ':', a numeral is read as it is and any other text gives 0. */
  lemma PlainGrammar(s: string)
    requires ':' !in s
    ensures IsNumeral(s) ==> ParseNumber(s).Some? && TimeStrToSeconds(s) == ParseNumber(s).value.Value()
    ensures !IsNumeral(s) ==> TimeStrToSeconds(s) == 0.0
  {
    NumberGrammar(s);
  }

  /** "M:S" where M or S is not a numeral gives 0. */
  lemma ColonNonNumeral(minutes: string, seconds: string)
    requires ':' !in minutes && ':' !in seconds
    requires !IsNumeral(minutes) || !IsNumeral(seconds)
    ensures TimeStrToSeconds(minutes + ":" + seconds) == 0.0
  {
    NumberGrammar(minutes);
    NumberGrammar(seconds);
    ColonForm(minutes, seconds);
  }

  /** Two runs of digits around one ':' read as minutes and seconds. */
  lemma ColonDigits(minutes: string, seconds: string)
    requires minutes != [] && AllDigits(minutes) && seconds != [] && AllDigits(seconds)
    ensures TimeStrToSeconds(minutes + ":" + seconds) ==
      (DigitsValue(minutes) * 60 + DigitsValue(seconds)) as real
  {
    DigitsNoSeparator(minutes, ':');
    DigitsNoSeparator(seconds, ':');
    ColonForm(minutes, seconds);
  }

  lemma TimeStrOneThirty(t: string)
    requires t == "1:30"
    ensures TimeStrToSeconds(t) == 90.0
  {
    assert t == "1" + ":" + "30";
    assert "30"[..1] == "3";
    ColonDigits("1", "30");
  }

  lemma TimeStrZeroFortyFive(t: string)
    requires t == "0:45"
    ensures TimeStrToSeconds(t) == 45.0
  {
    assert t == "0" + ":" + "45";
    assert "45"[..1] == "4";
    ColonDigits("0", "45");
  }

  lemma TimeStrDefault(t: string)
    requires t == "0:00"
    ensures TimeStrToSeconds(t) == 0.0
  {
    assert t == "0" + ":" + "00";
    assert "00"[..1] == "0";
    ColonDigits("0", "00");
  }

  lemma TimeStrPlain(t: string)
    requires t == "45"
    ensures TimeStrToSeconds(t) == 45.0
  {
    assert ':' !in "45";
    assert AllDigits("45");
    assert "45"[..1] == "4";
    assert DigitsValue("45") == 45;
  }

  /** A signed fraction in the seconds field: "0:-1.5" reads as -1.5. */
  lemma TimeStrNegativeFraction(t: string)
    requires t == "0:-1.5"
    ensures TimeStrToSeconds(t) == -1.5
  {
    var a, whole, frac := "0", "1", "5";
    assert AllDigits(whole) && DigitsValue(whole) == 1;
    assert AllDigits(frac) && DigitsValue(frac) == 5;
    ParseDecimal("-", whole, frac);
    var b := "-" + (whole + "." + frac);
    assert t == a + ":" + b;
    Tenths(true, 1, 5);
    ReadMinutesSeconds(a, b, Decimal(false, 0, 0, 0), Decimal(true, 1, 5, 1), -1.5);
  }

  /** A numeral with no whole part: ".5" reads as 0.5. */
  lemma TimeStrLeadingPoint(t: string)
    requires t == ".5"
    ensures TimeStrToSeconds(t) == 0.5
  {
    var frac := "5";
    assert AllDigits(frac) && DigitsValue(frac) == 5;
    ParseDecimal("", "", frac);
    assert t == "" + ("" + "." + frac);
    Tenths(false, 0, 5);
    ReadPlain(t, Decimal(false, 0, 5, 1), 0.5);
  }

  /** The value of a numeral with one decimal place. */
  lemma Tenths(negative: bool, units: nat, tenths: nat)
    ensures Decimal(negative, units, tenths, 1).Value() ==
      if negative then -(units as real + tenths as real / 10.0) else units as real + tenths as real / 10.0
  {
    assert Scaled(tenths, 1) == tenths as real / 10.0;
  }

  /** A colon-free text that reads as a number gives that number. */
  lemma ReadPlain(s: string, d: Decimal, value: real)
    requires ':' !in s && ParseNumber(s) == Some(d) && d.Value() == value
    ensures TimeStrToSeconds(s) == value
  {
  }

  lemma TimeStrInvalid(s: string)
    requires s == "invalid"
    ensures TimeStrToSeconds(s) == 0.0
  {
    assert ':' !in s && '.' !in s;
    OccurrencesAbsent(s, '.');
    assert !AllDigits(s) by { assert !IsDigit(s[0]); }
  }

  lemma TimeStrEmptySeconds(t: string)
    requires t == "1:"
    ensures TimeStrToSeconds(t) == 0.0
  {
    ColonForm("1", "");
    assert "1" + ":" + "" == t;
  }

  lemma TimeStrTwoColons(t: string)
    requires t == "1:2:3"
    ensures TimeStrToSeconds(t) == 0.0
  {
    assert Occurrences("1:2:3", ':') == 2;
  }

  // ---------------------------------------------------------------------
  // format_time
  // ---------------------------------------------------------------------

  /** A whole number of hundredths of a second: the inputs on which Python's
      binary float formatting and exact decimal arithmetic agree. */
  predicate IsHundredths(v: real) { (v * 100.0).Floor as real == v * 100.0 }

  /** `v` counted in hundredths, rounded down. */
  function Hundredths(v: real): (c: int)
    ensures 0.0 <= v ==> 0 <= c
    ensures IsHundredths(v) ==> c as real == v * 100.0
  {
    (v * 100.0).Floor
  }

  /** `int(seconds // 60)`: the whole minutes, rounded down. */
  function Minutes(seconds: real): (m: int)
    ensures m as real * 60.0 <= seconds < (m + 1) as real * 60.0
  {
    (seconds / 60.0).Floor
  }

  /** `seconds % 60`: what is left over after the whole minutes. */
  function Remainder(seconds: real): (r: real)
    ensures 0.0 <= r < 60.0
    ensures Minutes(seconds) as real * 60.0 + r == seconds
  {
    seconds - Minutes(seconds) as real * 60.0
  }

  lemma RemainderHundredths(seconds: real)
    requires IsHundredths(seconds)
    ensures IsHundredths(Remainder(seconds))
  {
    var k := (seconds * 100.0).Floor;
    var m := Minutes(seconds);
    assert Remainder(seconds) * 100.0 == (k - 6000 * m) as real;
  }

  /** `f"{n:0{width}d}"`: the sign, then the digits zero-padded so that sign
      and digits fill at least `width` characters. The result is digits (after
      a '-' for a negative count), never shorter than `width`, and exactly
      two characters for 0..99 at width 2. */
  function FormatInt(n: int, width: nat): (r: string)
    ensures |r| >= 1 && |r| >= width
    ensures n >= 0 ==> AllDigits(r)
    ensures n < 0 ==> r[0] == '-' && AllDigits(r[1..])
    ensures 0 <= n < 100 && width == 2 ==> |r| == 2
    ensures ':' !in r
  {
    if n < 0 then
      var w := if width > 0 then width - 1 else 0;
      var t := ZeroPad(Digits(-n), w);
      ZeroPadValue(Digits(-n), w);
      DigitsNoSeparator(t, ':');
      assert ("-" + t)[1..] == t;
      "-" + t
    else
      ZeroPadValue(Digits(n), width);
      DigitsNoSeparator(ZeroPad(Digits(n), width), ':');
      ZeroPad(Digits(n), width)
  }

  /** `f"{v:.2f}"` for a non-negative whole number of hundredths: digits, a
      point and exactly two digits, which together spell `v`. */
  function FormatFixed2(v: real): (r: string)
    requires 0.0 <= v && IsHundredths(v)
    ensures |r| >= 4 && r[|r| - 3] == '.'
    ensures AllDigits(r[..|r| - 3]) && AllDigits(r[|r| - 2..])
    ensures DigitsValue(r[..|r| - 3]) as real + DigitsValue(r[|r| - 2..]) as real / 100.0 == v
  {
    var c := Hundredths(v);
    var whole, frac := Digits(c / 100), ZeroPad(Digits(c % 100), 2);
    ZeroPadValue(Digits(c % 100), 2);
    PointFields(whole, frac);
    HundredthsSplit(c, v);
    whole + "." + frac
  }

  /** The parts around the point of "W.FF". */
  lemma PointFields(whole: string, frac: string)
    requires |frac| == 2
    ensures var r := whole + "." + frac;
      |r| == |whole| + 3 && r[|r| - 3] == '.' && r[..|r| - 3] == whole && r[|r| - 2..] == frac
  {
  }

  /** A count of hundredths is its whole units plus its hundredths. */
  lemma HundredthsSplit(c: int, v: real)
    requires 0 <= c && c as real == v * 100.0
    ensures (c / 100) as real + (c % 100) as real / 100.0 == v
  {
  }

  /** `str` of a positive number never starts with '0'. */
  lemma {:induction false} DigitsNoLeadingZero(n: nat)
    requires n > 0
    ensures Digits(n)[0] != '0'
  {
    if n >= 10 {
      DigitsNoLeadingZero(n / 10);
      assert Digits(n)[0] == Digits(n / 10)[0];
    }
  }

  /** The `0` flag pads only up to the width: a field longer than `width`
      carries no leading zero (after the '-' of a negative count), so
      `{:02d}` prints -5 as "-5" and 123 as "123". */
  lemma FormatIntMinimal(n: int, width: nat)
    requires n != 0
    ensures var r := FormatInt(n, width);
      |r| > width ==> (n > 0 ==> r[0] != '0') && (n < 0 ==> |r| >= 2 && r[1] != '0')
  {
    if n < 0 {
      DigitsNoLeadingZero(-n);
      SignedNoPadding(FormatInt(n, width), Digits(-n), if width > 0 then width - 1 else 0);
    } else {
      DigitsNoLeadingZero(n);
      UnpaddedStart(Digits(n), width);
    }
  }

  /** A padded text longer than the width was not padded. */
  lemma UnpaddedStart(d: string, w: nat)
    requires d != []
    ensures |ZeroPad(d, w)| > w ==> ZeroPad(d, w)[0] == d[0]
  {
  }

  /** A '-' before a padded text longer than the width: the character after
      the '-' is the text's own first character. */
  lemma SignedNoPadding(r: string, d: string, w: nat)
    requires d != [] && r == "-" + ZeroPad(d, w)
    ensures |r| > w + 1 ==> r[1] == d[0]
    ensures |r| >= 2
  {
    UnpaddedStart(d, w);
  }

  /** `{:.2f}` puts no leading zero before the point: the whole part is "0"
      or starts with a non-zero digit, so 5.5 prints as "5.50". */
  lemma FormatFixed2Minimal(v: real)
    requires 0.0 <= v && IsHundredths(v)
    ensures var r := FormatFixed2(v); |r| == 4 || r[0] != '0'
  {
    var c := Hundredths(v);
    if c / 100 > 0 {
      DigitsNoLeadingZero(c / 100);
      assert FormatFixed2(v)[0] == Digits(c / 100)[0];
    }
  }

  /** `format_time`: the whole minutes as `{:02d}`, a colon, and the
      remaining seconds as `{:05.2f}`, which is always two digits of whole
      seconds, a point and two digits of hundredths. */
  function FormatTime(seconds: real): (r: string)
    requires IsHundredths(seconds)
    ensures 0 <= Hundredths(Remainder(seconds)) < 6000
    ensures r == FormatInt(Minutes(seconds), 2) + ":" +
      (TwoDigitText(Hundredths(Remainder(seconds)) / 100) + "." +
       TwoDigitText(Hundredths(Remainder(seconds)) % 100))
  {
    RemainderHundredths(seconds);
    SecondsFieldShape(Remainder(seconds));
    FormatInt(Minutes(seconds), 2) + ":" + ZeroPad(FormatFixed2(Remainder(seconds)), 5)
  }

  lemma DigitsNoSeparator(s: string, c: char)
    requires AllDigits(s) && !IsDigit(c)
    ensures c !in s
  {
  }

  /** A '-' before digits reads as a negative whole numeral. */
  lemma ParseNegative(t: string, v: nat)
    requires t != [] && AllDigits(t) && DigitsValue(t) == v
    ensures ParseNumber("-" + t) == Some(Decimal(true, v, 0, 0))
  {
    var s := "-" + t;
    assert s != [] && s[0] == '-' && s[1..] == t;
    assert Magnitude(s) == t;
  }

  lemma ParseFormatNegative(n: int, width: nat)
    requires n < 0
    ensures ParseNumber(FormatInt(n, width)) == Some(Decimal(true, -n, 0, 0))
  {
    var t := NegativeDigits(n, width);
    ParseNegativeField(FormatInt(n, width), t, -n);
  }

  /** A text that is a '-' before digits reads as a negative whole numeral;
      a separate step that keeps the solver from unfolding the reading of
      the field and of its spelled-out text together. */
  lemma ParseNegativeField(r: string, t: string, v: nat)
    requires r == "-" + t && t != [] && AllDigits(t) && DigitsValue(t) == v
    ensures ParseNumber(r) == Some(Decimal(true, v, 0, 0))
  {
    ParseNegative(t, v);
  }

  /** Equal texts read alike; a separate step that keeps the solver from
      unfolding both readings together. */
  lemma SameText(a: string, b: string, d: Decimal)
    requires a == b && ParseNumber(b) == Some(d)
    ensures ParseNumber(a) == Some(d)
  {
  }

  /** The digits after the '-' of a negative `{:0Nd}` field. */
  function NegativeDigits(n: int, width: nat): (t: string)
    requires n < 0
    ensures FormatInt(n, width) == "-" + t
    ensures t != [] && AllDigits(t) && DigitsValue(t) == -n
  {
    var d := Digits(-n);
    var w := if width > 0 then width - 1 else 0;
    ZeroPadValue(d, w);
    ZeroPad(d, w)
  }

  lemma ParseFormatNonNegative(n: int, width: nat)
    requires n >= 0
    ensures ParseNumber(FormatInt(n, width)) == Some(Decimal(false, n, 0, 0))
  {
    var t := ZeroPad(Digits(n), width);
    ZeroPadValue(Digits(n), width);
    assert FormatInt(n, width) == t;
  }

  /** The numeral of a whole number: its sign and its magnitude. */
  function WholeNumeral(n: int): (d: Decimal)
    ensures d.Value() == n as real
  {
    if n < 0 then Decimal(true, -n, 0, 0) else Decimal(false, n, 0, 0)
  }

  /** Reading the minutes field back gives the minutes. */
  lemma ParseFormatInt(n: int, width: nat)
    ensures ParseNumber(FormatInt(n, width)) == Some(WholeNumeral(n))
  {
    if n < 0 { ParseFormatNegative(n, width); } else { ParseFormatNonNegative(n, width); }
  }

  /** The two digits of a number below 100, a leading zero included. */
  function TwoDigitText(n: nat): (s: string)
    requires n < 100
    ensures |s| == 2 && AllDigits(s)
    ensures DigitsValue(s) == n
  {
    var s := [DigitChar(n / 10), DigitChar(n % 10)];
    assert s[..1] == [DigitChar(n / 10)];
    assert [DigitChar(n / 10)][..0] == [];
    assert DigitsValue(s[..1]) == n / 10;
    s
  }

  /** Two-digit zero padding of a number below 100. */
  lemma TwoDigits(n: nat)
    requires n < 100
    ensures ZeroPad(Digits(n), 2) == TwoDigitText(n)
  {
    if n < 10 {
      assert Zeros(1) == "0";
      assert DigitChar(0) == '0';
    } else {
      assert Digits(n / 10) == [DigitChar(n / 10)];
    }
  }

  /** `{:02d}` of a number below 100 is its two-digit text. */
  lemma MinutesText(m: int)
    requires 0 <= m < 100
    ensures FormatInt(m, 2) == TwoDigitText(m)
  {
    TwoDigits(m);
  }

  /** Padding a text with a fixed tail pads the part before the tail. */
  lemma ZeroPadConcat(a: string, t: string, width: nat)
    requires |t| <= width
    ensures ZeroPad(a + t, width) == ZeroPad(a, width - |t|) + t
  {
    if |a| + |t| < width {
      AppendAssociates(Zeros(width - |t| - |a|), a, t);
    }
  }

  /** Concatenation is associative; a separate step that keeps the solver
      from unfolding the padding while it proves it. */
  lemma AppendAssociates(z: string, a: string, t: string)
    ensures z + (a + t) == (z + a) + t
  {
  }

  lemma FixedFieldText(q: nat, f: nat)
    requires q < 100 && f < 100
    ensures ZeroPad(Digits(q) + "." + ZeroPad(Digits(f), 2), 5) == TwoDigitText(q) + "." + TwoDigitText(f)
  {
    TwoDigits(f);
    TwoDigits(q);
    FieldAssembly(Digits(q), TwoDigitText(q), ZeroPad(Digits(f), 2));
  }

  /** "W.FF" padded to five characters pads the whole part to two. */
  lemma FieldAssembly(whole: string, padded: string, frac: string)
    requires |frac| == 2 && ZeroPad(whole, 2) == padded
    ensures ZeroPad(whole + "." + frac, 5) == padded + "." + frac
  {
    var tail := "." + frac;
    assert whole + "." + frac == whole + tail;
    ZeroPadConcat(whole, tail, 5);
    assert padded + "." + frac == padded + tail;
  }

  /** The seconds field `{:05.2f}` of a remainder below 60: two digits of
      whole seconds, a point, two digits of hundredths. */
  lemma SecondsFieldShape(v: real)
    requires 0.0 <= v < 60.0 && IsHundredths(v)
    ensures 0 <= Hundredths(v) < 6000
    ensures ZeroPad(FormatFixed2(v), 5) ==
      TwoDigitText(Hundredths(v) / 100) + "." + TwoDigitText(Hundredths(v) % 100)
    ensures (Hundredths(v) / 100) as real + (Hundredths(v) % 100) as real / 100.0 == v
  {
    FixedFieldText(Hundredths(v) / 100, Hundredths(v) % 100);
  }

  /** The three fields of `format_time`'s text add up to the seconds it was
      given. */
  lemma FormatTimeFields(seconds: real)
    requires IsHundredths(seconds)
    ensures 0 <= Hundredths(Remainder(seconds)) < 6000
    ensures Minutes(seconds) as real * 60.0 + (Hundredths(Remainder(seconds)) / 100) as real
      + (Hundredths(Remainder(seconds)) % 100) as real / 100.0 == seconds
  {
    RemainderHundredths(seconds);
    SecondsFieldShape(Remainder(seconds));
  }

  /** The layout `format_time` promises for `value`: a minutes field of at
      least two characters, ':', two digits of seconds, '.', two digits of
      hundredths; all digits for a non-negative value, eight characters
      below 100 minutes. */
  predicate ClockShaped(r: string, value: real)
  {
    && |r| >= 8 && r[|r| - 6] == ':' && r[|r| - 3] == '.'
    && (value >= 0.0 ==> forall i :: 0 <= i < |r| && i != |r| - 6 && i != |r| - 3 ==> IsDigit(r[i]))
    && (0.0 <= value < 6000.0 ==> |r| == 8)
  }

  /** Layout of `format_time`'s output. */
  lemma FormatTimeLayout(seconds: real)
    requires IsHundredths(seconds)
    ensures ClockShaped(FormatTime(seconds), seconds)
  {
    FormatTimeFields(seconds);
    ClockLayout(FormatTime(seconds), Minutes(seconds), Hundredths(Remainder(seconds)), seconds);
  }

  /** The layout of a clock text built from its fields, `m` being the whole
      minutes of `value`. */
  lemma ClockLayout(r: string, m: int, c: int, value: real)
    requires 0 <= c < 6000
    requires r == FormatInt(m, 2) + ":" + (TwoDigitText(c / 100) + "." + TwoDigitText(c % 100))
    requires m as real * 60.0 <= value < (m + 1) as real * 60.0
    ensures ClockShaped(r, value)
  {
    assert value >= 0.0 ==> m >= 0;
    assert value < 6000.0 ==> m < 100;
    TimeFieldsLayout(FormatInt(m, 2), TwoDigitText(c / 100), TwoDigitText(c % 100));
  }

  lemma TimeFieldsLayout(a: string, whole: string, frac: string)
    requires |whole| == 2 && |frac| == 2 && AllDigits(whole) && AllDigits(frac)
    ensures var r := a + ":" + (whole + "." + frac);
      && |r| == |a| + 6 && r[|a|] == ':' && r[|a| + 3] == '.'
      && (AllDigits(a) ==> forall i :: 0 <= i < |r| && i != |a| && i != |a| + 3 ==> IsDigit(r[i]))
  {
    var r := a + ":" + (whole + "." + frac);
    if AllDigits(a) {
      forall i | 0 <= i < |r| && i != |a| && i != |a| + 3 ensures IsDigit(r[i]) {
        if i < |a| { assert r[i] == a[i]; }
        else if i < |a| + 3 { assert r[i] == whole[i - |a| - 1]; }
        else { assert r[i] == frac[i - |a| - 4]; }
      }
    }
  }

  /** Reading a "SS.ss" field back gives its value. */
  lemma ParseSecondsField(whole: string, frac: string)
    requires |whole| == 2 && |frac| == 2 && AllDigits(whole) && AllDigits(frac)
    ensures ':' !in whole + "." + frac
    ensures ParseNumber(whole + "." + frac) == Some(Decimal(false, DigitsValue(whole), DigitsValue(frac), 2))
  {
    var m := whole + "." + frac;
    DigitsNoSeparator(whole, ':');
    DigitsNoSeparator(frac, ':');
    AbsentAroundPoint(whole, frac, ':');
    ParseDecimal("", whole, frac);
    Unsigned(m);
    SameText(m, "" + m, Decimal(false, DigitsValue(whole), DigitsValue(frac), |frac|));
  }

  /** A character in neither part, and not the point, is not in "W.F". */
  lemma AbsentAroundPoint(whole: string, frac: string, c: char)
    requires c !in whole && c !in frac && c != '.'
    ensures c !in whole + "." + frac
  {
  }

  /** No sign is the empty prefix. */
  lemma Unsigned(m: string)
    ensures "" + m == m
  {
  }

  /** The signs `float` accepts before a numeral: none, '+' or '-'. */
  predicate IsSign(sign: string) { sign == "" || sign == "+" || sign == "-" }

  /** An optional sign, then digits, a point and digits (at least one digit
      on either side), read as the decimal fraction they spell, negative
      exactly after a '-': "-1.5", "+2.25", ".5", "5.". */
  lemma ParseDecimal(sign: string, whole: string, frac: string)
    requires IsSign(sign) && AllDigits(whole) && AllDigits(frac) && (whole != [] || frac != [])
    ensures ParseNumber(sign + (whole + "." + frac)) ==
      Some(Decimal(sign == "-", DigitsValue(whole), DigitsValue(frac), |frac|))
  {
    var m := whole + "." + frac;
    DigitsNoSeparator(whole, '.');
    DigitsNoSeparator(frac, '.');
    SplitTwo(whole, frac, '.');
    assert m[0] == if whole != [] then whole[0] else '.';
    SignedReading(sign, m, Decimal(false, DigitsValue(whole), DigitsValue(frac), |frac|));
  }

  /** An optional sign, then a run of digits, read as the whole number they
      spell, negative exactly after a '-': "-7", "+7", "7". */
  lemma ParseInteger(sign: string, digits: string)
    requires IsSign(sign) && digits != [] && AllDigits(digits)
    ensures ParseNumber(sign + digits) == Some(Decimal(sign == "-", DigitsValue(digits), 0, 0))
  {
    assert IsDigit(digits[0]);
    SignedReading(sign, digits, Decimal(false, DigitsValue(digits), 0, 0));
  }

  /** A sign before an unsigned numeral `m` keeps `m`'s reading and sets
      its sign. */
  lemma SignedReading(sign: string, m: string, d: Decimal)
    requires IsSign(sign) && m != [] && m[0] != '+' && m[0] != '-'
    requires ParseUnsigned(m) == Some(d)
    ensures ParseNumber(sign + m) == Some(d.(negative := sign == "-"))
  {
    var s := sign + m;
    if sign == "" {
      assert s == m;
    } else {
      assert s[0] == sign[0] && s[1..] == m;
    }
    assert Magnitude(s) == m;
  }

  /** Round trip: reading back what `format_time` printed gives the seconds
      it was given, for every whole number of hundredths (negative too). */
  lemma FormatTimeRoundTrip(seconds: real)
    requires IsHundredths(seconds)
    ensures TimeStrToSeconds(FormatTime(seconds)) == seconds
  {
    FormatTimeFields(seconds);
    ReadClock(FormatTime(seconds), Minutes(seconds), Hundredths(Remainder(seconds)), seconds);
  }

  /** Reading back a clock text built from its fields gives their value. */
  lemma ReadClock(r: string, m: int, c: int, value: real)
    requires 0 <= c < 6000
    requires r == FormatInt(m, 2) + ":" + (TwoDigitText(c / 100) + "." + TwoDigitText(c % 100))
    requires m as real * 60.0 + (c / 100) as real + (c % 100) as real / 100.0 == value
    ensures TimeStrToSeconds(r) == value
  {
    var whole, frac := TwoDigitText(c / 100), TwoDigitText(c % 100);
    var seconds := Decimal(false, c / 100, c % 100, 2);
    ParseSecondsField(whole, frac);
    ParseFormatInt(m, 2);
    ClockValue(m, c, value);
    ReadMinutesSeconds(FormatInt(m, 2), whole + "." + frac, WholeNumeral(m), seconds, value);
  }

  lemma ClockValue(m: int, c: int, value: real)
    requires 0 <= c < 6000
    requires m as real * 60.0 + (c / 100) as real + (c % 100) as real / 100.0 == value
    ensures WholeNumeral(m).Value() * 60.0 + Decimal(false, c / 100, c % 100, 2).Value() == value
  {
    var f := c % 100;
    assert Scaled(f, 1) == f as real / 10.0;
    assert Scaled(f, 2) == f as real / 100.0;
  }

  /** "M:S" with both parts numbers reads as M * 60 + S. */
  lemma ReadMinutesSeconds(a: string, b: string, minutes: Decimal, seconds: Decimal, value: real)
    requires ':' !in a && ':' !in b
    requires ParseNumber(a) == Some(minutes) && ParseNumber(b) == Some(seconds)
    requires minutes.Value() * 60.0 + seconds.Value() == value
    ensures TimeStrToSeconds(a + ":" + b) == value
  {
    ColonForm(a, b);
  }

  /** The exact text of `format_time` for non-negative input below 100
      minutes: two digits of minutes, ':', two digits of seconds, '.', two
      digits of hundredths. */
  lemma FormatTimeText(seconds: real)
    requires IsHundredths(seconds) && 0.0 <= seconds < 6000.0
    ensures 0 <= Minutes(seconds) < 100 && 0 <= Hundredths(Remainder(seconds)) < 6000
    ensures FormatTime(seconds) ==
      TwoDigitText(Minutes(seconds)) + ":" +
      (TwoDigitText(Hundredths(Remainder(seconds)) / 100) + "." +
       TwoDigitText(Hundredths(Remainder(seconds)) % 100))
  {
    var m := Minutes(seconds);
    var rem := Remainder(seconds);
    RemainderHundredths(seconds);
    SecondsFieldShape(rem);
    assert 0 <= m < 100;
    MinutesText(m);
    assert FormatTime(seconds) == FormatInt(m, 2) + ":" + ZeroPad(FormatFixed2(rem), 5);
  }

  lemma FormatTimeNinety(seconds: real)
    requires seconds == 90.0
    ensures FormatTime(seconds) == "01:30.00"
  {
    FormatTimeText(seconds);
    MinutesAndHundredths(seconds, 1, 3000);
    ClockText(FormatTime(seconds), Minutes(seconds), Hundredths(Remainder(seconds)));
  }

  lemma FormatTimeFortyFive(seconds: real)
    requires seconds == 45.0
    ensures FormatTime(seconds) == "00:45.00"
  {
    FormatTimeText(seconds);
    MinutesAndHundredths(seconds, 0, 4500);
    ClockText(FormatTime(seconds), Minutes(seconds), Hundredths(Remainder(seconds)));
  }

  /** Spells out the clock texts of the two documented examples from their fields. */
  lemma ClockText(s: string, m: int, c: int)
    requires 0 <= m < 100 && 0 <= c < 6000
    requires s == TwoDigitText(m) + ":" + (TwoDigitText(c / 100) + "." + TwoDigitText(c % 100))
    ensures m == 1 && c == 3000 ==> s == "01:30.00"
    ensures m == 0 && c == 4500 ==> s == "00:45.00"
  {
    TwoDigitTexts();
    if m == 1 && c == 3000 {
      assert "01" + ":" + ("30" + "." + "00") == "01:30.00";
    } else if m == 0 && c == 4500 {
      assert "00" + ":" + ("45" + "." + "00") == "00:45.00";
    }
  }

  lemma MinutesAndHundredths(seconds: real, m: int, c: int)
    requires 0 <= c < 6000 && seconds == (m * 60) as real + c as real / 100.0
    ensures Minutes(seconds) == m && Hundredths(Remainder(seconds)) == c
  {
  }

  lemma TwoDigitTexts()
    ensures TwoDigitText(0) == "00" && TwoDigitText(1) == "01"
    ensures TwoDigitText(30) == "30" && TwoDigitText(45) == "45"
  {
  }
}
