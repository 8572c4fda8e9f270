/**
  `AppMonitor.format_duration`: a second count rendered as `H:MM:SS`.

  Python computes `hours, remainder = divmod(total_seconds, 3600)` and
  `minutes, seconds = divmod(remainder, 60)`, then prints `int(hours)` as is and
  `int(minutes)`, `int(seconds)` zero-padded to two digits. Python's `divmod` with
  a positive divisor floors, which is what Dafny's `/` and `%` do for a positive
  divisor, so `FormatSeconds` is the routine on whole seconds; `FormatDuration`
  is the routine on a (real-valued) float second count, and `FormatDurationTruncates`
  shows that it equals `FormatSeconds` of the count rounded down.
  `ParseDuration` reads such a string back and is the partner of both.
 */
module Duration {
  import opened Wrappers

  const SecondsPerHour: int := 3600
  const SecondsPerMinute: int := 60

  predicate IsDigit(c: char) { '0' <= c <= '9' }

  function DigitChar(d: nat): (c: char)
    requires d < 10
    ensures IsDigit(c) && (c as int) - ('0' as int) == d
  {
    ('0' as int + d) as char
  }

  /** Python's `str` of a non-negative integer: its decimal digits, with no leading zero (hours are unpadded). */
  function NatToString(n: nat): (s: string)
    ensures |s| >= 1
    ensures n >= 10 ==> s[0] != '0'
    decreases n
  {
    if n < 10 then [DigitChar(n)] else NatToString(n / 10) + [DigitChar(n % 10)]
  }

  /** Python's `str` of an integer: a minus sign before the digits of a negative one. */
  function IntToString(i: int): (s: string)
  {
    (if i < 0 then "-" else "") + NatToString(if i < 0 then -i else i)
  }

  /** Python's `f'{n:02d}'` for `0 <= n < 100`: exactly two digits. */
  function Pad2(n: nat): (s: string)
    requires n < 100
  {
    [DigitChar(n / 10), DigitChar(n % 10)]
  }

  /** `format_duration` on a whole number of seconds (negative if the clock went back). */
  function FormatSeconds(total: int): (s: string)
  {
    var hours := total / SecondsPerHour;
    var remainder := total % SecondsPerHour;
    var minutes := remainder / SecondsPerMinute;
    var seconds := remainder % SecondsPerMinute;
    IntToString(hours) + ":" + Pad2(minutes) + ":" + Pad2(seconds)
  }

  /**
    `format_duration` on the float `timedelta.total_seconds()`, with the float
    `divmod` read as exact arithmetic: quotient `floor(x / d)`, remainder
    `x - d * floor(x / d)`, and `int` truncating the non-negative seconds field.
   */
  function FormatDuration(totalSeconds: real): (s: string)
  {
    var hours := (totalSeconds / 3600.0).Floor;
    var remainder := totalSeconds - 3600.0 * hours as real;
    var minutes := (remainder / 60.0).Floor;
    var seconds := remainder - 60.0 * minutes as real;
    assert 0.0 <= remainder < 3600.0;
    assert 0 <= minutes < 60;
    assert 0.0 <= seconds < 60.0;
    IntToString(hours) + ":" + Pad2(minutes) + ":" + Pad2(seconds.Floor)
  }

  // ---------------------------------------------------------------------------
  // Reading a duration back

  function DigitValue(c: char): (d: nat)
    requires IsDigit(c)
  {
    (c as int) - ('0' as int)
  }

  /** The value of a non-empty string of decimal digits, or `None`. */
  function ParseNat(s: string): (n: Option<nat>)
  {
    if |s| == 0 || !IsDigit(s[|s| - 1]) then None
    else if |s| == 1 then Some(DigitValue(s[0]))
    else
      match ParseNat(s[..|s| - 1])
      case None => None
      case Some(prefix) => Some(prefix * 10 + DigitValue(s[|s| - 1]))
  }

  /** The value of an optionally `-`-signed decimal integer, or `None`. */
  function ParseInt(s: string): (i: Option<int>)
  {
    if |s| > 0 && s[0] == '-' then
      match ParseNat(s[1..])
      case None => None
      case Some(n) => Some(-(n as int))
    else
      match ParseNat(s)
      case None => None
      case Some(n) => Some(n)
  }

  /** The second count an `H:MM:SS` string stands for, or `None` if it is not one. */
  function ParseDuration(s: string): (total: Option<int>)
  {
    if |s| < 7 || s[|s| - 6] != ':' || s[|s| - 3] != ':' then None
    else
      match (ParseInt(s[..|s| - 6]), ParseNat(s[|s| - 5..|s| - 3]), ParseNat(s[|s| - 2..]))
      case (Some(h), Some(m), Some(sec)) =>
        if m < 60 && sec < 60 then Some(h * SecondsPerHour + m * SecondsPerMinute + sec) else None
      case _ => None
  }

  // ---------------------------------------------------------------------------
  // Properties

  lemma {:induction false} NatToStringDigits(n: nat)
    ensures |NatToString(n)| >= 1
    ensures forall i :: 0 <= i < |NatToString(n)| ==> IsDigit(NatToString(n)[i])
    ensures ParseNat(NatToString(n)) == Some(n)
    decreases n
  {
    if n >= 10 {
      NatToStringDigits(n / 10);
      var s := NatToString(n);
      assert s[..|s| - 1] == NatToString(n / 10);
    }
  }

  lemma {:induction false} IntToStringRoundTrip(i: int)
    ensures |IntToString(i)| >= 1
    ensures ParseInt(IntToString(i)) == Some(i)
  {
    if i < 0 {
      NatToStringDigits(-i);
      assert IntToString(i)[1..] == NatToString(-i);
    } else {
      NatToStringDigits(i);
      assert IntToString(i) == NatToString(i);
    }
  }

  lemma Pad2RoundTrip(n: nat)
    requires n < 100
    ensures |Pad2(n)| == 2 && ParseNat(Pad2(n)) == Some(n)
  {
    assert Pad2(n)[..1] == [DigitChar(n / 10)];
  }

  /**
    The fields of `FormatSeconds(total)`: minutes and seconds lie in 0..59 and
    `hours * 3600 + minutes * 60 + seconds == total`.
   */
  lemma FormatSecondsFields(total: int)
    ensures exists h: int, m: nat, s: nat | m < 60 && s < 60 ::
      h * 3600 + m * 60 + s == total &&
      FormatSeconds(total) == IntToString(h) + ":" + Pad2(m) + ":" + Pad2(s)
  {
    var h, m, s := total / 3600, total % 3600 / 60, total % 3600 % 60;
    assert h * 3600 + m * 60 + s == total;
    assert FormatSeconds(total) == IntToString(h) + ":" + Pad2(m) + ":" + Pad2(s);
  }

  /** Formatting loses nothing: the string reads back as the same second count. */
  lemma FormatSecondsRoundTrip(total: int)
    ensures ParseDuration(FormatSeconds(total)) == Some(total)
  {
    var hours := total / SecondsPerHour;
    var remainder := total % SecondsPerHour;
    var minutes := remainder / SecondsPerMinute;
    var seconds := remainder % SecondsPerMinute;
    var hs, ms, ss := IntToString(hours), Pad2(minutes), Pad2(seconds);
    IntToStringRoundTrip(hours);
    Pad2RoundTrip(minutes);
    Pad2RoundTrip(seconds);
    var r := FormatSeconds(total);
    assert r == hs + ":" + ms + ":" + ss;
    assert r[..|r| - 6] == hs;
    assert r[|r| - 5..|r| - 3] == ms;
    assert r[|r| - 2..] == ss;
    assert hours * SecondsPerHour + minutes * SecondsPerMinute + seconds == total;
  }

  /** Distinct second counts are rendered differently. */
  lemma FormatSecondsInjective(a: int, b: int)
    requires FormatSeconds(a) == FormatSeconds(b)
    ensures a == b
  {
    FormatSecondsRoundTrip(a);
    FormatSecondsRoundTrip(b);
  }

  /** The float routine truncates to whole seconds: it is `FormatSeconds` of the floor. */
  lemma FormatDurationTruncates(x: real)
    ensures FormatDuration(x) == FormatSeconds(x.Floor)
  {
    var n := x.Floor;
    var hours := (x / 3600.0).Floor;
    var remainder := x - 3600.0 * hours as real;
    var minutes := (remainder / 60.0).Floor;
    var seconds := remainder - 60.0 * minutes as real;
    assert hours == n / 3600 by {
      assert hours as real * 3600.0 <= x < (hours + 1) as real * 3600.0;
      assert hours * 3600 <= n < (hours + 1) * 3600;
    }
    assert remainder.Floor == n % 3600;
    assert minutes == n % 3600 / 60 by {
      assert minutes as real * 60.0 <= remainder < (minutes + 1) as real * 60.0;
      assert minutes * 60 <= n % 3600 < (minutes + 1) * 60;
    }
    assert seconds.Floor == n % 3600 % 60;
  }

  /** Examples: 3725 s, 59 s, 10 s, 5 s and a fractional 90.9 s. */
  lemma FormatExamples()
    ensures FormatSeconds(3725) == "1:02:05"
    ensures FormatSeconds(59) == "0:00:59"
    ensures FormatSeconds(10) == "0:00:10"
    ensures FormatSeconds(5) == "0:00:05"
    ensures FormatDuration(90.9) == "0:01:30"
  {
    FormatDurationTruncates(90.9);
    assert (90.9).Floor == 90;
  }
}
