/** `parse_lap_time_to_seconds` (api/util.py, and its verbatim copy
    lib/util.py): `"M:SS.fff"` or `"SS.fff"` to seconds, with Python's
    `int()` and `float()` restricted to optional surrounding whitespace, an
    optional sign and ASCII decimal digits (with one optional point for
    `float()`). Seconds are exact reals. */
module LapTime {
  import opened Wrappers
  import opened Text

  /** Why the call raises `ValueError`. */
  datatype LapTimeError =
    | TooManyColons   // `minutes, seconds = lap_time.split(':')` unpacks three or more pieces
    | BadMinutes      // `int(minutes)` rejects its text
    | BadSeconds      // `float(...)` rejects its text

  /** An unsigned decimal: `digits`, `digits.`, `digits.digits` or `.digits`. */
  function UnsignedDecimal(t: string): (r: Option<real>)
    ensures r.Some? ==> r.value >= 0.0
  {
    if '.' in t then
      var parts := SplitFirst(t, '.');
      DecimalParts(parts.0, parts.1)
    else
      match UnsignedInteger(t)
      case None => None
      case Some(n) => Some(n as real)
  }

  /** The digits before and after the point, at least one of them present. */
  function DecimalParts(whole: string, frac: string): (r: Option<real>)
    ensures r.Some? ==> r.value >= 0.0
  {
    if AllDigits(whole) && AllDigits(frac) && |whole| + |frac| >= 1 then
      QuotientNonNegative(DigitsValue(frac) as real, Pow10(|frac|) as real);
      Some(DigitsValue(whole) as real + DigitsValue(frac) as real / Pow10(|frac|) as real)
    else None
  }

  lemma QuotientNonNegative(x: real, y: real)
    requires x >= 0.0 && y > 0.0
    ensures x / y >= 0.0
  {
  }

  /** `float(s)`: an optional `+` or `-` before an unsigned decimal. */
  function ParseFloat(s: string): Option<real> {
    var t := Trim(s);
    if t != [] && (t[0] == '+' || t[0] == '-') then
      match UnsignedDecimal(t[1..])
      case None => None
      case Some(v) => Some(if t[0] == '-' then -v else v)
    else UnsignedDecimal(t)
  }

  /** An unsigned integer: one or more digits. */
  function UnsignedInteger(t: string): (r: Option<int>)
    ensures r.Some? ==> r.value >= 0
  {
    if AllDigits(t) && |t| >= 1 then Some(DigitsValue(t)) else None
  }

  /** `int(s)`: an optional `+` or `-` before one or more digits. */
  function ParseInt(s: string): Option<int> {
    var t := Trim(s);
    if t != [] && (t[0] == '+' || t[0] == '-') then
      match UnsignedInteger(t[1..])
      case None => None
      case Some(v) => Some(if t[0] == '-' then -v else v)
    else UnsignedInteger(t)
  }

  /** `parse_lap_time_to_seconds(s)`: `int(minutes) * 60 + float(seconds)`
      when `s` has a colon, `float(s)` otherwise. */
  function ParseLapTime(s: string): Result<real, LapTimeError> {
    if ':' in s then
      var (minutes, seconds) := SplitFirst(s, ':');
      if ':' in seconds then Err(TooManyColons)
      else Combine(ParseInt(minutes), ParseFloat(seconds))
    else
      match ParseFloat(s)
      case None => Err(BadSeconds)
      case Some(sec) => Ok(sec)
  }

  /** `int(minutes) * 60 + float(seconds)`: `int` is evaluated first, so its
      error wins when both pieces are malformed. */
  function Combine(minutes: Option<int>, seconds: Option<real>): (r: Result<real, LapTimeError>)
    ensures r.Ok? <==> minutes.Some? && seconds.Some?
    ensures r.Ok? ==> r.value == minutes.value as real * 60.0 + seconds.value
    ensures minutes.None? ==> r == Err(BadMinutes)
    ensures minutes.Some? && seconds.None? ==> r == Err(BadSeconds)
  {
    match minutes
    case None => Err(BadMinutes)
    case Some(m) =>
      match seconds
      case None => Err(BadSeconds)
      case Some(sec) => Ok(m as real * 60.0 + sec)
  }

  /** No colon: the seconds value of the whole string, or the error
      `float()` raises. */
  lemma NoColonIsSeconds(s: string)
    requires ':' !in s
    ensures ParseLapTime(s).Ok? <==> ParseFloat(s).Some?
    ensures ParseLapTime(s).Ok? ==> ParseLapTime(s).value == ParseFloat(s).value
    ensures ParseLapTime(s).Err? ==> ParseLapTime(s).error == BadSeconds
  {
  }

  /** Exactly one colon: `minutes * 60 + seconds`, failing exactly when one
      of the two pieces does not parse. */
  lemma OneColonIsMinutesAndSeconds(minutes: string, seconds: string)
    requires ':' !in minutes && ':' !in seconds
    ensures ParseLapTime(minutes + ":" + seconds) == Combine(ParseInt(minutes), ParseFloat(seconds))
  {
    SplitFirstOf(minutes, ':', seconds);
  }

  /** Two or more colons: the unpacking fails, whatever the pieces hold. */
  lemma ManyColonsFail(s: string)
    requires Count(s, ':') >= 2
    ensures ParseLapTime(s) == Err(TooManyColons)
  {
    var (m, sec) := SplitFirst(s, ':');
    CountConcat(m + [':'], sec, ':');
    CountConcat(m, [':'], ':');
    assert Count([':'], ':') == 1 by {
      assert [':'][1..] == [];
    }
  }

  /** Without a minus sign the result is never negative. */
  lemma NonNegativeWithoutMinus(s: string)
    requires '-' !in s
    requires ParseLapTime(s).Ok?
    ensures ParseLapTime(s).value >= 0.0
  {
    if ':' in s {
      var (m, sec) := SplitFirst(s, ':');
      assert forall c :: c in m ==> c in s;
      assert forall c :: c in sec ==> c in s;
      FloatNonNegative(sec);
      IntNonNegative(m);
    } else {
      FloatNonNegative(s);
    }
  }

  lemma FloatNonNegative(s: string)
    requires '-' !in s
    ensures ParseFloat(s).Some? ==> ParseFloat(s).value >= 0.0
  {
    TrimSubset(s);
  }

  lemma IntNonNegative(s: string)
    requires '-' !in s
    ensures ParseInt(s).Some? ==> ParseInt(s).value >= 0
  {
    TrimSubset(s);
  }

  /** Lap times as the channel writes them: whole minutes, a colon, two
      digits of seconds, a point and three digits of milliseconds. */
  function FormatLapTime(minutes: nat, millis: nat): string
    requires millis < 60000
  {
    NatToString(minutes) + ":" + PadNat(millis / 1000, 2) + "." + PadNat(millis % 1000, 3)
  }

  /** Parsing a formatted lap time gives back `minutes * 60 + millis / 1000`. */
  lemma FormatThenParse(minutes: nat, millis: nat)
    requires millis < 60000
    ensures ParseLapTime(FormatLapTime(minutes, millis)).Ok?
    ensures ParseLapTime(FormatLapTime(minutes, millis)).value == minutes as real * 60.0 + millis as real / 1000.0
  {
    FormatFields(minutes, millis);
    MinutesParse(minutes);
    SecondsParse(millis);
    var sec := ParseFloat(SecondsField(millis)).value;
    OneColonValue(NatToString(minutes), SecondsField(millis), minutes, sec);
  }

  /** The `SS.fff` part of a formatted lap time. */
  function SecondsField(millis: nat): string {
    PadNat(millis / 1000, 2) + "." + PadNat(millis % 1000, 3)
  }

  /** A formatted lap time is the minutes, one colon and the seconds field. */
  lemma FormatFields(minutes: nat, millis: nat)
    requires millis < 60000
    ensures FormatLapTime(minutes, millis) == NatToString(minutes) + ":" + SecondsField(millis)
    ensures ':' !in NatToString(minutes) && ':' !in SecondsField(millis)
  {
    var secs := PadNat(millis / 1000, 2);
    var frac := PadNat(millis % 1000, 3);
    DigitsHaveNo(NatToString(minutes), ':');
    DigitsHaveNo(secs, ':');
    DigitsHaveNo(frac, ':');
    assert forall c :: c in secs + "." + frac ==> c in secs || c == '.' || c in frac;
  }

  /** The minutes field parses back to `minutes`. */
  lemma MinutesParse(minutes: nat)
    ensures ParseInt(NatToString(minutes)) == Some(minutes)
  {
    DigitsInt(NatToString(minutes));
  }

  lemma OneColonValue(minutes: string, seconds: string, m: int, sec: real)
    requires ':' !in minutes && ':' !in seconds
    requires ParseInt(minutes) == Some(m) && ParseFloat(seconds) == Some(sec)
    ensures ParseLapTime(minutes + ":" + seconds) == Ok(m as real * 60.0 + sec)
  {
    OneColonIsMinutesAndSeconds(minutes, seconds);
    CombineBoth(m, sec);
  }

  lemma CombineBoth(m: int, sec: real)
    ensures Combine(Some(m), Some(sec)) == Ok(m as real * 60.0 + sec)
  {
  }

  /** The seconds field `SS.fff` parses to `millis / 1000`. */
  lemma SecondsParse(millis: nat)
    requires millis < 60000
    ensures ParseFloat(SecondsField(millis)).Some?
    ensures ParseFloat(SecondsField(millis)).value == millis as real / 1000.0
  {
    var secs := PadNat(millis / 1000, 2);
    var frac := PadNat(millis % 1000, 3);
    PadLength(millis % 1000, 3);
    ThreeDecimals(secs, frac);
    MillisSplit(millis);
  }

  lemma ThreeDecimals(whole: string, frac: string)
    requires AllDigits(whole) && AllDigits(frac) && |whole| >= 1 && |frac| == 3
    ensures ParseFloat(whole + "." + frac).Some?
    ensures ParseFloat(whole + "." + frac).value == DigitsValue(whole) as real + DigitsValue(frac) as real / 1000.0
  {
    assert Pow10(|frac|) == 1000 by { assert Pow10(1) == 10; assert Pow10(2) == 100; }
    DecimalParse(whole, frac);
    DivideByThousand(DigitsValue(frac) as real, Pow10(|frac|));
  }

  lemma DivideByThousand(x: real, p: nat)
    requires p == 1000
    ensures x / p as real == x / 1000.0
  {
  }

  lemma MillisSplit(millis: nat)
    ensures (millis / 1000) as real + (millis % 1000) as real / 1000.0 == millis as real / 1000.0
  {
    assert millis == (millis / 1000) * 1000 + millis % 1000;
  }

  lemma DigitsInt(s: string)
    requires AllDigits(s) && |s| >= 1
    ensures ParseInt(s) == Some(DigitsValue(s))
  {
    DigitsStripped(s);
    assert !(s[0] == '+' || s[0] == '-');
  }

  lemma DigitsStripped(s: string)
    requires AllDigits(s) && |s| >= 1
    ensures Trim(s) == s
  {
    assert IsDigit(s[0]) && IsDigit(s[|s| - 1]);
    TrimStripped(s);
  }

  lemma DigitsHaveNo(s: string, c: char)
    requires AllDigits(s) && !IsDigit(c)
    ensures c !in s
  {
  }

  /** `float("<digits>.<digits>")`. */
  lemma DecimalParse(whole: string, frac: string)
    requires AllDigits(whole) && AllDigits(frac) && |whole| >= 1 && |frac| >= 1
    ensures ParseFloat(whole + "." + frac).Some?
    ensures ParseFloat(whole + "." + frac).value ==
            DigitsValue(whole) as real + DigitsValue(frac) as real / Pow10(|frac|) as real
  {
    var t := whole + "." + frac;
    DecimalTextPlain(whole, frac);
    UnsignedFloat(t);
    DecimalDigits(whole, frac);
  }

  /** `digits.digits` has no surrounding whitespace and no sign. */
  lemma DecimalTextPlain(whole: string, frac: string)
    requires AllDigits(whole) && AllDigits(frac) && |whole| >= 1 && |frac| >= 1
    ensures var t := whole + "." + frac;
      Trim(t) == t && t != [] && t[0] != '+' && t[0] != '-'
  {
    var t := whole + "." + frac;
    assert t[0] == whole[0] && t[|t| - 1] == frac[|frac| - 1];
    assert IsDigit(whole[0]) && IsDigit(frac[|frac| - 1]);
    TrimStripped(t);
  }

  /** Text that `strip()` leaves alone and that has no sign parses as an
      unsigned decimal. */
  lemma UnsignedFloat(t: string)
    requires Trim(t) == t && t != [] && t[0] != '+' && t[0] != '-'
    ensures ParseFloat(t) == UnsignedDecimal(t)
  {
  }

  lemma DecimalDigits(whole: string, frac: string)
    requires AllDigits(whole) && AllDigits(frac) && |whole| >= 1 && |frac| >= 1
    ensures UnsignedDecimal(whole + "." + frac).Some?
    ensures UnsignedDecimal(whole + "." + frac).value ==
            DigitsValue(whole) as real + DigitsValue(frac) as real / Pow10(|frac|) as real
  {
    DecimalSplit(whole, frac);
    DecimalPartsValue(whole, frac);
  }

  lemma DecimalSplit(whole: string, frac: string)
    requires AllDigits(whole) && |whole| >= 1
    ensures UnsignedDecimal(whole + "." + frac) == DecimalParts(whole, frac)
  {
    DigitsHaveNo(whole, '.');
    SplitFirstOf(whole, '.', frac);
    DecimalAtPoint(whole + "." + frac, whole, frac);
  }

  lemma DecimalPartsValue(whole: string, frac: string)
    requires AllDigits(whole) && AllDigits(frac) && |whole| >= 1
    ensures DecimalParts(whole, frac).Some?
    ensures DecimalParts(whole, frac).value ==
            DigitsValue(whole) as real + DigitsValue(frac) as real / Pow10(|frac|) as real
  {
  }

  lemma DecimalAtPoint(t: string, whole: string, frac: string)
    requires '.' in t && SplitFirst(t, '.') == (whole, frac)
    ensures UnsignedDecimal(t) == DecimalParts(whole, frac)
  {
  }
  /** The documented example `"1:12.123"`: 72.123 seconds. */
  lemma MinutesExample(s: string)
    requires s == "1:12.123"
    ensures ParseLapTime(s).Ok? && ParseLapTime(s).value == 72.123
  {
    var minutes, whole, frac := "1", "12", "123";
    ExampleDigits(s, minutes, whole, frac);
    ColonDecimal(minutes, whole, frac);
    DivideByThousand(DigitsValue(frac) as real, Pow10(|frac|));
  }

  /** `"<digits>:<digits>.<digits>"` is the minutes times 60 plus the
      decimal seconds. */
  lemma ColonDecimal(minutes: string, whole: string, frac: string)
    requires AllDigits(minutes) && AllDigits(whole) && AllDigits(frac)
    requires |minutes| >= 1 && |whole| >= 1 && |frac| >= 1
    ensures ParseLapTime(minutes + ":" + (whole + "." + frac)).Ok?
    ensures ParseLapTime(minutes + ":" + (whole + "." + frac)).value ==
      DigitsValue(minutes) as real * 60.0 + (DigitsValue(whole) as real + DigitsValue(frac) as real / Pow10(|frac|) as real)
  {
    var seconds := whole + "." + frac;
    var v := DigitsValue(whole) as real + DigitsValue(frac) as real / Pow10(|frac|) as real;
    DecimalExample(seconds, whole, frac, DigitsValue(whole), DigitsValue(frac), v);
    DigitsInt(minutes);
    DigitsHaveNo(minutes, ':');
    DigitsHaveNo(whole, ':');
    DigitsHaveNo(frac, ':');
    assert forall c :: c in seconds ==> c in whole || c == '.' || c in frac;
    OneColonValue(minutes, seconds, DigitsValue(minutes), v);
  }

  lemma ExampleDigits(s: string, minutes: string, whole: string, frac: string)
    requires s == "1:12.123" && minutes == "1" && whole == "12" && frac == "123"
    ensures AllDigits(minutes) && AllDigits(whole) && AllDigits(frac)
    ensures |minutes| == 1 && |whole| == 2 && |frac| == 3
    ensures s == minutes + ":" + (whole + "." + frac)
    ensures DigitsValue(minutes) == 1 && DigitsValue(whole) == 12 && DigitsValue(frac) == 123
    ensures Pow10(|frac|) == 1000
  {
    assert minutes[..0] == [];
    TwoDigitsValue(whole);
    ThreeDigitsValue(frac);
    assert Pow10(2) == 100;
  }

  lemma TwoDigitsValue(s: string)
    requires |s| == 2 && AllDigits(s)
    ensures DigitsValue(s) == (s[0] as int - '0' as int) * 10 + (s[1] as int - '0' as int)
  {
    var one := s[..1];
    assert one[..0] == [] && one[0] == s[0];
    assert DigitsValue(one) == s[0] as int - '0' as int;
  }

  lemma ThreeDigitsValue(s: string)
    requires |s| == 3 && AllDigits(s)
    ensures DigitsValue(s) == (s[0] as int - '0' as int) * 100 + (s[1] as int - '0' as int) * 10 + (s[2] as int - '0' as int)
  {
    var one, two := s[..1], s[..2];
    assert two[..1] == one && two[1] == s[1] && one[..0] == [] && one[0] == s[0];
    assert DigitsValue(one) == s[0] as int - '0' as int;
    assert DigitsValue(two) == DigitsValue(one) * 10 + (s[1] as int - '0' as int);
    assert s[..2] == two;
  }

  /** The documented example `"45.5"`: 45.5 seconds. */
  lemma SecondsExample(s: string)
    requires s == "45.5"
    ensures ParseLapTime(s).Ok? && ParseLapTime(s).value == 45.5
  {
    DecimalExample(s, "45", "5", 45, 5, 45.5);
    assert ':' !in s;
    NoColonIsSeconds(s);
  }

  /** `float(t)` for a decimal `t` whose two digit runs have the values
      `w` and `f`. */
  lemma DecimalExample(t: string, whole: string, frac: string, w: nat, f: nat, v: real)
    requires AllDigits(whole) && AllDigits(frac) && |whole| >= 1 && |frac| >= 1
    requires t == whole + "." + frac
    requires DigitsValue(whole) == w && DigitsValue(frac) == f
    requires v == w as real + f as real / Pow10(|frac|) as real
    ensures ParseFloat(t).Some? && ParseFloat(t).value == v
  {
    DecimalParse(whole, frac);
    var r := ParseFloat(whole + "." + frac);
    assert r.Some? && r.value == v;
  }

  /** The documented example `"abc"`: rejected by `float()`. */
  lemma MalformedExample(s: string)
    requires s == "abc"
    ensures ParseLapTime(s) == Err(BadSeconds)
  {
    assert Stripped(s);
    TrimStripped(s);
    assert ':' !in s && '.' !in s;
    assert UnsignedInteger(s).None? by { assert !IsDigit(s[0]); }
    assert ParseFloat(s).None?;
    NoColonIsSeconds(s);
  }
}
