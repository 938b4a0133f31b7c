/**
 * `String(forInterval:)`, the formatter behind `uptime`: the interval is
 * truncated to whole seconds, split into hours, minutes and seconds with
 * Swift's `/` and `%`, and printed with the format "%0.2dh:%0.2dm:%0.2ds".
 * A millisecond count is also computed and passed to the format, which has no
 * conversion for it, so it never appears in the text.
 */
module Uptime {
  import opened Options
  import opened Numeric

  /** `NSInteger(interval)` traps unless the truncated value fits in a 64-bit `Int`. */
  predicate FitsInt64(interval: real): (b: bool)
    ensures b <==> -0x8000_0000_0000_0000 <= Trunc(interval) < 0x8000_0000_0000_0000
  {
    TruncInRange(interval, -0x8000_0000_0000_0000, 0x7FFF_FFFF_FFFF_FFFF);
    -9223372036854775809.0 < interval < 9223372036854775808.0
  }

  datatype IntervalFields = IntervalFields(hours: int, minutes: int, seconds: int, ms: int)

  /** The four values the formatter computes from the interval. */
  function Fields(interval: real): (f: IntervalFields)
    requires FitsInt64(interval)
    ensures f.hours * 3600 + f.minutes * 60 + f.seconds == Trunc(interval)
    ensures 0.0 <= interval ==>
      0 <= f.hours && 0 <= f.minutes < 60 && 0 <= f.seconds < 60 && 0 <= f.ms < 1000
    ensures interval < 0.0 ==>
      f.hours <= 0 && -60 < f.minutes <= 0 && -60 < f.seconds <= 0 && -1000 < f.ms <= 0
  {
    var time := Trunc(interval);
    var ms := Trunc((interval - time as real) * 1000.0);
    var seconds := Rem(time, 60);
    var minutes := Rem(Quot(time, 60), 60);
    var hours := Quot(time, 3600);
    QuotQuot60(time);
    IntervalFields(hours, minutes, seconds, ms)
  }

  /**
   * For a whole number of seconds that is not negative, the fields are the
   * only hours, minutes and seconds that add back up to it with minutes and
   * seconds below 60.
   */
  lemma {:induction false} FieldsUnique(t: nat, h: int, m: int, s: int)
    requires t < 0x8000_0000_0000_0000
    requires 0 <= m < 60 && 0 <= s < 60 && h * 3600 + m * 60 + s == t
    ensures Fields(t as real) == IntervalFields(h, m, s, 0)
  {
    var f := Fields(t as real);
    assert Trunc(t as real) == t;
    assert 0 <= m * 60 + s < 3600 && 0 <= f.minutes * 60 + f.seconds < 3600;
    assert f.hours == h;
    assert f.minutes * 60 + f.seconds == m * 60 + s;
    assert f.minutes == m;
  }

  // ---- "%0.2d" ----

  predicate IsDigit(c: char)
  {
    '0' <= c <= '9'
  }

  predicate AllDigits(s: string)
  {
    forall k :: 0 <= k < |s| ==> IsDigit(s[k])
  }

  /** The number a string of decimal digits denotes. */
  function ValueOf(ds: string): nat
    requires AllDigits(ds)
  {
    if ds == [] then 0 else ValueOf(ds[..|ds| - 1]) * 10 + (ds[|ds| - 1] as int - '0' as int)
  }

  /** The decimal digits of `n`, without leading zeros. */
  function Decimal(n: nat): (r: string)
    ensures |r| >= 1 && AllDigits(r) && ValueOf(r) == n
    ensures |r| > 1 ==> r[0] != '0'
    ensures n < 10 <==> |r| == 1
  {
    if n < 10 then [('0' as int + n) as char]
    else
      var r := Decimal(n / 10) + [('0' as int + n % 10) as char];
      assert r[..|r| - 1] == Decimal(n / 10);
      r
  }

  /**
   * printf's "%0.2d": the decimal digits of `n`, at least two of them (zeros
   * are added on the left), after a minus sign when `n` is negative.
   */
  function Padded(n: int): (r: string)
    ensures n >= 0 ==> 2 <= |r| && AllDigits(r) && ValueOf(r) == n
    ensures n < 0 ==> 3 <= |r| && r[0] == '-' && AllDigits(r[1..]) && ValueOf(r[1..]) == -n
    ensures -100 < n < 100 ==> |r| == if n < 0 then 3 else 2
    ensures n >= 100 ==> r == Decimal(n)
    ensures n <= -100 ==> r == "-" + Decimal(-n)
  {
    var ds := Decimal(if n < 0 then -n else n);
    var body := if |ds| < 2 then "0" + ds else ds;
    LeadingZero(ds);
    if n < 0 then
      assert ("-" + body)[1..] == body;
      "-" + body
    else body
  }

  /** A leading zero does not change the value. */
  lemma {:induction false} LeadingZero(ds: string)
    requires AllDigits(ds)
    ensures AllDigits("0" + ds) && ValueOf("0" + ds) == ValueOf(ds)
    decreases |ds|
  {
    if ds != [] {
      var z := "0" + ds;
      assert z[..|z| - 1] == "0" + ds[..|ds| - 1];
      LeadingZero(ds[..|ds| - 1]);
    }
  }

  /** The text the formatter produces for `interval`. */
  function FormatInterval(interval: real): (r: string)
    requires FitsInt64(interval)
    ensures 11 <= |r| && r[|r| - 1] == 's'
  {
    var f := Fields(interval);
    Padded(f.hours) + "h:" + Padded(f.minutes) + "m:" + Padded(f.seconds) + "s"
  }

  // ---- reading the text back ----

  /** The length of the run of digits that `s` starts with. */
  function DigitRun(s: string): (n: nat)
    ensures n <= |s| && AllDigits(s[..n]) && (n < |s| ==> !IsDigit(s[n]))
  {
    if s == [] || !IsDigit(s[0]) then 0
    else
      var n := DigitRun(s[1..]) + 1;
      assert s[..n] == [s[0]] + s[1..][..n - 1];
      n
  }

  /** A run of digits read as its value; the rest of the text follows. */
  function ParseDigits(t: string): Option<(nat, string)>
  {
    var n := DigitRun(t);
    if n == 0 then None else Some((ValueOf(t[..n]), t[n..]))
  }

  /** One field: an optional minus sign and a run of digits; the rest of the text follows. */
  function ParseField(s: string): Option<(int, string)>
  {
    if |s| > 0 && s[0] == '-' then
      match ParseDigits(s[1..])
      case None => None
      case Some((v, rest)) => Some((-(v as int), rest))
    else
      match ParseDigits(s)
      case None => None
      case Some((v, rest)) => Some((v as int, rest))
  }

  /** Reads "<h>h:<m>m:<s>s" back into its three numbers. */
  function ParseInterval(s: string): Option<(int, int, int)>
  {
    match ParseUnit(s, "h:")
    case None => None
    case Some((h, r1)) =>
      match ParseUnit(r1, "m:")
      case None => None
      case Some((m, r2)) =>
        match ParseUnit(r2, "s")
        case None => None
        case Some((sec, r3)) => if r3 == [] then Some((h, m, sec)) else None
  }

  /** A field followed by the literal `unit`; the rest of the text follows. */
  function ParseUnit(s: string, unit: string): Option<(int, string)>
  {
    match ParseField(s)
    case None => None
    case Some((v, rest)) =>
      if |unit| <= |rest| && rest[..|unit|] == unit then Some((v, rest[|unit|..])) else None
  }

  /** A padded field, its unit and more text read back as the number and that text. */
  lemma ParsePaddedUnit(n: int, unit: string, rest: string)
    requires unit != [] && !IsDigit(unit[0])
    ensures ParseUnit(Padded(n) + unit + rest, unit) == Some((n, rest))
  {
    assert Padded(n) + unit + rest == Padded(n) + (unit + rest);
    ParsePadded(n, unit + rest);
    assert (unit + rest)[..|unit|] == unit;
    assert (unit + rest)[|unit|..] == rest;
  }

  /** A padded field and its unit at the end of the text read back as the number and nothing. */
  lemma ParsePaddedLastUnit(n: int, unit: string)
    requires unit != [] && !IsDigit(unit[0])
    ensures ParseUnit(Padded(n) + unit, unit) == Some((n, []))
  {
    assert Padded(n) + unit == Padded(n) + unit + [];
    ParsePaddedUnit(n, unit, []);
  }

  /** A padded field followed by a non-digit reads back as its number. */
  lemma ParsePadded(n: int, rest: string)
    requires rest != [] && !IsDigit(rest[0])
    ensures ParseField(Padded(n) + rest) == Some((n, rest))
  {
    var p := Padded(n);
    if n >= 0 {
      ParseUnsigned(p, rest);
    } else {
      assert p == "-" + p[1..];
      ParseNegative(p[1..], rest);
    }
  }

  /** Digits followed by a non-digit read back as their value. */
  lemma ParseUnsigned(ds: string, rest: string)
    requires ds != [] && AllDigits(ds) && rest != [] && !IsDigit(rest[0])
    ensures ParseField(ds + rest) == Some((ValueOf(ds) as int, rest))
  {
    ParseDigitsOf(ds, rest);
  }

  /** A minus sign and digits followed by a non-digit read back as the negated value. */
  lemma ParseNegative(ds: string, rest: string)
    requires ds != [] && AllDigits(ds) && rest != [] && !IsDigit(rest[0])
    ensures ParseField("-" + ds + rest) == Some((-(ValueOf(ds) as int), rest))
  {
    SignAhead(ds, rest);
    ParseDigitsOf(ds, rest);
  }

  lemma SignAhead(ds: string, rest: string)
    ensures |"-" + ds + rest| > 0 && ("-" + ds + rest)[0] == '-' && ("-" + ds + rest)[1..] == ds + rest
  {
  }

  lemma ParseDigitsOf(ds: string, rest: string)
    requires ds != [] && AllDigits(ds) && rest != [] && !IsDigit(rest[0])
    ensures ParseDigits(ds + rest) == Some((ValueOf(ds), rest))
  {
    var t := ds + rest;
    DigitRunOf(ds, rest);
    assert t[..|ds|] == ds && t[|ds|..] == rest;
  }

  /** The digit run of digits followed by a non-digit is exactly those digits. */
  lemma {:induction false} DigitRunOf(ds: string, rest: string)
    requires AllDigits(ds) && rest != [] && !IsDigit(rest[0])
    ensures DigitRun(ds + rest) == |ds|
    decreases |ds|
  {
    var t := ds + rest;
    if ds == [] {
      assert t == rest;
    } else {
      assert t[0] == ds[0] && IsDigit(t[0]);
      assert t[1..] == ds[1..] + rest;
      assert AllDigits(ds[1..]) by {
        forall k | 0 <= k < |ds| - 1 ensures IsDigit(ds[1..][k]) {
          assert ds[1..][k] == ds[k + 1];
        }
      }
      DigitRunOf(ds[1..], rest);
    }
  }

  /** Three padded fields in the formatter's layout read back as the three numbers. */
  lemma ParseLayout(h: int, m: int, sec: int)
    ensures ParseInterval(Padded(h) + "h:" + Padded(m) + "m:" + Padded(sec) + "s") == Some((h, m, sec))
  {
    var r2 := Padded(sec) + "s";
    var r1 := Padded(m) + "m:" + r2;
    ParsePaddedUnit(h, "h:", r1);
    ParsePaddedUnit(m, "m:", r2);
    ParsePaddedLastUnit(sec, "s");
    ParseIntervalOf(Padded(h), Padded(m), Padded(sec), h, m, sec);
  }

  /** Three fields that read back in turn, with nothing left over, make a whole reading. */
  lemma ParseIntervalOf(ph: string, pm: string, ps: string, h: int, m: int, sec: int)
    requires ParseUnit(ph + "h:" + (pm + "m:" + (ps + "s")), "h:") == Some((h, pm + "m:" + (ps + "s")))
    requires ParseUnit(pm + "m:" + (ps + "s"), "m:") == Some((m, ps + "s"))
    requires ParseUnit(ps + "s", "s") == Some((sec, []))
    ensures ParseInterval(ph + "h:" + pm + "m:" + ps + "s") == Some((h, m, sec))
  {
    var r2 := ps + "s";
    var r1 := pm + "m:" + r2;
    ConcatLayout(ph, pm, ps);
    ParseUnitsInTurn(ph + "h:" + r1, h, r1, m, r2, sec);
  }

  lemma ConcatLayout(ph: string, pm: string, ps: string)
    ensures ph + "h:" + pm + "m:" + ps + "s" == ph + "h:" + (pm + "m:" + (ps + "s"))
  {
  }

  lemma ParseUnitsInTurn(s: string, h: int, r1: string, m: int, r2: string, sec: int)
    requires ParseUnit(s, "h:") == Some((h, r1))
    requires ParseUnit(r1, "m:") == Some((m, r2))
    requires ParseUnit(r2, "s") == Some((sec, []))
    ensures ParseInterval(s) == Some((h, m, sec))
  {
  }

  /**
   * The formatted text reads back as hours, minutes and seconds that add
   * back up to the whole seconds of the interval: the text loses nothing but
   * the fraction of a second.
   */
  lemma FormatReadsBack(interval: real)
    requires FitsInt64(interval)
    ensures ParseInterval(FormatInterval(interval)).Some?
    ensures var (h, m, s) := ParseInterval(FormatInterval(interval)).value;
      h * 3600 + m * 60 + s == Trunc(interval)
      && (0.0 <= interval ==> 0 <= h && 0 <= m < 60 && 0 <= s < 60)
      && (interval < 0.0 ==> h <= 0 && -60 < m <= 0 && -60 < s <= 0)
  {
    var f := Fields(interval);
    ParseLayout(f.hours, f.minutes, f.seconds);
  }

  /** Only the whole seconds matter: the computed milliseconds never reach the text. */
  lemma FractionNotPrinted(a: real, b: real)
    requires FitsInt64(a) && FitsInt64(b) && Trunc(a) == Trunc(b)
    ensures FormatInterval(a) == FormatInterval(b)
  {
  }

  /** Below 100 hours of uptime the text is exactly 11 characters, "HHh:MMm:SSs". */
  lemma FormatWidth(interval: real)
    requires 0.0 <= interval < 360000.0
    ensures |FormatInterval(interval)| == 11
  {
    var f := Fields(interval);
    assert f.hours < 100 by {
      MulSign(3600, f.hours - 100);
      assert 3600 * (f.hours - 100) == 3600 * f.hours - 360000;
    }
  }

  lemma FormatZero()
    ensures FormatInterval(0.0) == "00h:00m:00s"
  {
    FormatOfFields(0.0, 0, 0, 0);
    assert Padded(0) == "00" by {
      PaddedSmall(0);
    }
    ZeroText();
  }

  lemma ZeroText()
    ensures "00" + "h:" + "00" + "m:" + "00" + "s" == "00h:00m:00s"
  {
  }

  lemma FormatOneHourOneMinuteOneSecond()
    ensures FormatInterval(3661.0) == "01h:01m:01s"
  {
    FormatOfFields(3661.0, 1, 1, 1);
    assert Padded(1) == "01" by {
      PaddedSmall(1);
    }
    OneText();
  }

  lemma OneText()
    ensures "01" + "h:" + "01" + "m:" + "01" + "s" == "01h:01m:01s"
  {
  }

  /** The text for a whole number of seconds, given its hours, minutes and seconds. */
  lemma FormatOfFields(interval: real, h: int, m: int, s: int)
    requires 0.0 <= interval < 9223372036854775808.0 && interval == interval.Floor as real
    requires 0 <= m < 60 && 0 <= s < 60 && h * 3600 + m * 60 + s == interval.Floor
    ensures FormatInterval(interval) == Padded(h) + "h:" + Padded(m) + "m:" + Padded(s) + "s"
  {
    FieldsUnique(interval.Floor, h, m, s);
  }

  /** A single digit is printed with one leading zero. */
  lemma PaddedSmall(n: nat)
    requires n < 10
    ensures Padded(n) == "0" + [('0' as int + n) as char]
  {
  }
}
