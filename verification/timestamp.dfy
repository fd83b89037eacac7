/**
 The subtitle timestamp formatter of src/utils/file_handler.py.

 A time is an integer number of microseconds, the resolution of Python's
 `timedelta`. The source splits the elapsed time with floor division and
 modulo; for a positive divisor Dafny's `/` and `%` agree with Python's `//`
 and `%`, also on negative times. Milliseconds are cut off with `int(...)`,
 which truncates, so the fields never carry into the next unit.
 */
module Timestamp {
  import opened Text

  const MicrosPerMilli: int := 1_000
  const MicrosPerSecond: int := 1_000_000
  const MicrosPerMinute: int := 60_000_000
  const MicrosPerHour: int := 3_600_000_000

  /** The four fields a timestamp shows. Only `hours` can be negative. */
  datatype Clock = Clock(hours: int, minutes: int, seconds: int, millis: int)

  predicate InRange(c: Clock) {
    0 <= c.minutes < 60 && 0 <= c.seconds < 60 && 0 <= c.millis < 1000
  }

  /** The whole milliseconds a clock stands for. */
  function ClockMillis(c: Clock): int {
    c.hours * 3_600_000 + c.minutes * 60_000 + c.seconds * 1_000 + c.millis
  }

  /** The split into hours, minutes, seconds and milliseconds, by floor division. */
  function Split(us: int): (c: Clock)
    ensures InRange(c)
  {
    Clock(us / MicrosPerHour,
          (us % MicrosPerHour) / MicrosPerMinute,
          (us % MicrosPerMinute) / MicrosPerSecond,
          (us % MicrosPerSecond) / MicrosPerMilli)
  }

  /**
   The split is exact and bounded: the fields are in range and add up to the
   input in whole milliseconds, rounded down, so the sub-millisecond rest is
   dropped and never rounded up. Only the hours field can be negative, and
   only for a negative time.
   */
  lemma SplitCorrect(us: int)
    ensures InRange(Split(us))
    ensures ClockMillis(Split(us)) == us / MicrosPerMilli
    ensures us >= 0 <==> Split(us).hours >= 0
  {
    SplitSums(us);
  }

  lemma SplitSums(us: int)
    ensures (us / MicrosPerHour) * 3_600_000
          + ((us % MicrosPerHour) / MicrosPerMinute) * 60_000
          + ((us % MicrosPerMinute) / MicrosPerSecond) * 1_000
          + (us % MicrosPerSecond) / MicrosPerMilli
          == us / MicrosPerMilli
  {
    var h := us / MicrosPerHour;
    var rh := us % MicrosPerHour;
    assert us == h * MicrosPerHour + rh;
    var m := rh / MicrosPerMinute;
    var rm := rh % MicrosPerMinute;
    assert rh == m * MicrosPerMinute + rm;
    // us mod one minute is the rest after whole hours and minutes
    assert us == (h * 60 + m) * MicrosPerMinute + rm;
    ModOfMultiple(us, h * 60 + m, MicrosPerMinute, rm);
    var s := rm / MicrosPerSecond;
    var rs := rm % MicrosPerSecond;
    assert rm == s * MicrosPerSecond + rs;
    assert us == ((h * 60 + m) * 60 + s) * MicrosPerSecond + rs;
    ModOfMultiple(us, (h * 60 + m) * 60 + s, MicrosPerSecond, rs);
    var ms := rs / MicrosPerMilli;
    var rms := rs % MicrosPerMilli;
    assert us == (((h * 60 + m) * 60 + s) * 1000 + ms) * MicrosPerMilli + rms;
    ModOfMultiple(us, ((h * 60 + m) * 60 + s) * 1000 + ms, MicrosPerMilli, rms);
  }

  /** Division with remainder is unique. */
  lemma ModOfMultiple(x: int, q: int, d: int, r: int)
    requires d > 0 && 0 <= r < d && x == q * d + r
    ensures x / d == q && x % d == r
  {
    var q', r' := x / d, x % d;
    assert (q' - q) * d == r - r' by {
      assert q' * d + r' == q * d + r;
    }
    MulAtLeastDivisor(q' - q, d);
    MulAtLeastDivisor(q - q', d);
    assert (q - q') * d == -((q' - q) * d);
  }

  lemma MulAtLeastDivisor(k: int, d: int)
    ensures k >= 1 && d > 0 ==> k * d >= d
  {
    if k >= 1 && d > 0 {
      assert k * d == (k - 1) * d + d;
    }
  }

  /**
   The split is the only bounded one: any clock with fields in range that
   adds up to the input's whole milliseconds is the one `Split` returns.
   */
  lemma SplitUnique(us: int, c: Clock)
    requires InRange(c) && ClockMillis(c) == us / MicrosPerMilli
    ensures c == Split(us)
  {
    var s := Split(us);
    SplitCorrect(us);
    var ms := us / MicrosPerMilli;
    ModOfMultiple(ms, c.hours * 3600 + c.minutes * 60 + c.seconds, 1000, c.millis);
    ModOfMultiple(ms, s.hours * 3600 + s.minutes * 60 + s.seconds, 1000, s.millis);
    var secs := ms / 1000;
    ModOfMultiple(secs, c.hours * 60 + c.minutes, 60, c.seconds);
    ModOfMultiple(secs, s.hours * 60 + s.minutes, 60, s.seconds);
    var mins := secs / 60;
    ModOfMultiple(mins, c.hours, 60, c.minutes);
    ModOfMultiple(mins, s.hours, 60, s.minutes);
  }

  /** `HH:MM:SS`, each field rendered with `02d`. */
  function Hms(c: Clock): string {
    FormatInt(c.hours, 2) + ":" + FormatInt(c.minutes, 2) + ":" + FormatInt(c.seconds, 2)
  }

  /** `HH:MM:SS` followed by `sep` and the milliseconds rendered with `03d`. */
  function HmsMillis(c: Clock, sep: char): string {
    Hms(c) + [sep] + FormatInt(c.millis, 3)
  }

  /**
   `format_timestamp(seconds, format_type)`: `HH:MM:SS,mmm` for "srt",
   `HH:MM:SS.mmm` for "vtt" and plain `HH:MM:SS` for every other style.
   */
  function FormatTimestamp(us: int, formatType: string): string {
    var c := Split(us);
    if formatType == "srt" then HmsMillis(c, ',')
    else if formatType == "vtt" then HmsMillis(c, '.')
    else Hms(c)
  }

  /** Reads back a (possibly negative) `d`-formatted integer. */
  function ParseInt(t: string): Option<int> {
    if |t| >= 2 && t[0] == '-' && AllDigits(t[1..]) then Some(0 - DigitsValue(t[1..]) as int)
    else if |t| >= 1 && AllDigits(t) then Some(DigitsValue(t))
    else None
  }

  /**
   Reads a timestamp `H:MM:SS<sep>mmm` back into whole milliseconds; the hours
   field is one or more digits, possibly after a minus sign.
   */
  function ParseTimestamp(s: string, sep: char): Option<int> {
    var n := |s|;
    if n < 11 || s[n - 10] != ':' || s[n - 7] != ':' || s[n - 4] != sep then None
    else if !AllDigits(s[n - 9..n - 7]) || !AllDigits(s[n - 6..n - 4]) || !AllDigits(s[n - 3..]) then None
    else match ParseInt(s[..n - 10])
      case None => None
      case Some(h) =>
        Some(h * 3_600_000 + DigitsValue(s[n - 9..n - 7]) * 60_000
             + DigitsValue(s[n - 6..n - 4]) * 1_000 + DigitsValue(s[n - 3..]))
  }

  lemma FormatIntRoundTrip(n: int, width: nat)
    requires 1 <= width
    ensures ParseInt(FormatInt(n, width)) == Some(n)
  {
    var t := FormatInt(n, width);
    if n >= 0 {
      ZeroPadRoundTrip(n, width);
      ParseUnsigned(t);
    } else {
      var d := ZeroPad(-n, width - 1);
      assert t[1..] == d && t[0] == '-';
      ZeroPadRoundTrip(-n, width - 1);
      ParseSigned(t);
    }
  }

  lemma ParseSigned(t: string)
    requires |t| >= 2 && t[0] == '-' && AllDigits(t[1..])
    ensures ParseInt(t) == Some(0 - DigitsValue(t[1..]))
  {
  }

  lemma ParseUnsigned(t: string)
    requires |t| >= 1 && AllDigits(t)
    ensures ParseInt(t) == Some(DigitsValue(t))
  {
    assert IsDigit(t[0]);
  }

  lemma Fields(h: string, mm: string, ss: string, sep: char, ms: string)
    requires |mm| == 2 && |ss| == 2 && |ms| == 3
    ensures var r := h + ":" + mm + ":" + ss + [sep] + ms;
            var n := |r|;
            && n == |h| + 10
            && r[..n - 10] == h
            && r[n - 10] == ':' && r[n - 9..n - 7] == mm
            && r[n - 7] == ':' && r[n - 6..n - 4] == ss
            && r[n - 4] == sep && r[n - 3..] == ms
  {
  }

  /**
   The layout of a clock with milliseconds: the hours field (two or more
   digits, or a minus sign and digits), then fields of exactly two, two and
   three digits behind `:`, `:` and `sep`.
   */
  lemma ClockLayout(c: Clock, sep: char)
    requires InRange(c)
    ensures var r := HmsMillis(c, sep);
            var n := |r|;
            && n >= 11
            && r[..n - 10] == FormatInt(c.hours, 2)
            && r[n - 10] == ':' && r[n - 9..n - 7] == ZeroPad(c.minutes, 2)
            && r[n - 7] == ':' && r[n - 6..n - 4] == ZeroPad(c.seconds, 2)
            && r[n - 4] == sep && r[n - 3..] == ZeroPad(c.millis, 3)
  {
    ZeroPadExact(c.minutes, 2);
    ZeroPadExact(c.seconds, 2);
    ZeroPadExact(c.millis, 3);
    Fields(FormatInt(c.hours, 2), ZeroPad(c.minutes, 2), ZeroPad(c.seconds, 2), sep, ZeroPad(c.millis, 3));
  }

  /** What the parser reads from a string with the timestamp layout. */
  lemma ParseFields(r: string, sep: char)
    requires |r| >= 11 && r[|r| - 10] == ':' && r[|r| - 7] == ':' && r[|r| - 4] == sep
    requires AllDigits(r[|r| - 9..|r| - 7]) && AllDigits(r[|r| - 6..|r| - 4]) && AllDigits(r[|r| - 3..])
    requires ParseInt(r[..|r| - 10]).Some?
    ensures ParseTimestamp(r, sep)
         == Some(ParseInt(r[..|r| - 10]).value * 3_600_000 + DigitsValue(r[|r| - 9..|r| - 7]) * 60_000
                 + DigitsValue(r[|r| - 6..|r| - 4]) * 1_000 + DigitsValue(r[|r| - 3..]))
  {
  }

  /** A clock with milliseconds reads back as the milliseconds it stands for. */
  lemma ClockRoundTrip(c: Clock, sep: char)
    requires InRange(c)
    ensures ParseTimestamp(HmsMillis(c, sep), sep) == Some(ClockMillis(c))
  {
    var r := HmsMillis(c, sep);
    ClockLayout(c, sep);
    FormatIntRoundTrip(c.hours, 2);
    ZeroPadRoundTrip(c.minutes, 2);
    ZeroPadRoundTrip(c.seconds, 2);
    ZeroPadRoundTrip(c.millis, 3);
    ParseFields(r, sep);
  }

  /**
   Reading an SRT or WebVTT timestamp back gives the input time in whole
   milliseconds, rounded down: the rendering loses exactly the
   sub-millisecond rest and nothing else.
   */
  lemma ParseFormatRoundTrip(us: int, formatType: string, sep: char)
    requires (formatType == "srt" && sep == ',') || (formatType == "vtt" && sep == '.')
    ensures ParseTimestamp(FormatTimestamp(us, formatType), sep) == Some(us / MicrosPerMilli)
  {
    SplitCorrect(us);
    assert FormatTimestamp(us, formatType) == HmsMillis(Split(us), sep);
    ClockRoundTrip(Split(us), sep);
  }

  /**
   Truncation: two times render identically exactly when they fall in the
   same millisecond, so 59.9995 s shows as 59 s and 999 ms, never as 60 s.
   */
  lemma SameMillisecond(a: int, b: int, formatType: string)
    requires formatType == "srt" || formatType == "vtt"
    ensures FormatTimestamp(a, formatType) == FormatTimestamp(b, formatType)
            <==> a / MicrosPerMilli == b / MicrosPerMilli
  {
    var sep := if formatType == "srt" then ',' else '.';
    ParseFormatRoundTrip(a, formatType, sep);
    ParseFormatRoundTrip(b, formatType, sep);
    if a / MicrosPerMilli == b / MicrosPerMilli {
      SplitCorrect(a);
      SplitUnique(b, Split(a));
    }
  }

  /**
   SRT and WebVTT timestamps agree character for character except for the
   separator in front of the milliseconds, `,` versus `.`.
   */
  lemma SrtVttAgree(us: int)
    ensures var s := FormatTimestamp(us, "srt");
            var v := FormatTimestamp(us, "vtt");
            && |s| == |v|
            && s[..|s| - 4] == v[..|v| - 4] && s[|s| - 3..] == v[|v| - 3..]
            && s[|s| - 4] == ',' && v[|v| - 4] == '.'
  {
    SplitCorrect(us);
    ClockLayout(Split(us), ',');
    ClockLayout(Split(us), '.');
  }

  /**
   The SRT timestamp is the WebVTT one with its `.` before the milliseconds
   turned into `,`.
   */
  lemma VttToSrt(us: int)
    ensures var v := FormatTimestamp(us, "vtt");
            && |v| >= 4 && v[|v| - 4] == '.'
            && FormatTimestamp(us, "srt") == v[|v| - 4 := ',']
  {
    SrtVttAgree(us);
    var s, v := FormatTimestamp(us, "srt"), FormatTimestamp(us, "vtt");
    var n := |v|;
    forall i | 0 <= i < n
      ensures s[i] == v[n - 4 := ','][i]
    {
      if i < n - 4 {
        assert s[..n - 4][i] == v[..n - 4][i];
      } else if i > n - 4 {
        assert s[n - 3..][i - (n - 3)] == v[n - 3..][i - (n - 3)];
      }
    }
  }

  /**
   Any style other than "srt" and "vtt" yields the SRT timestamp without its
   `,mmm` suffix.
   */
  lemma PlainIsSrtWithoutMillis(us: int, formatType: string)
    requires formatType != "srt" && formatType != "vtt"
    ensures var s := FormatTimestamp(us, "srt");
            |s| >= 4 && FormatTimestamp(us, formatType) == s[..|s| - 4]
  {
    var c := Split(us);
    SplitCorrect(us);
    ZeroPadExact(c.millis, 3);
    var s := HmsMillis(c, ',');
    assert s == Hms(c) + ([','] + FormatInt(c.millis, 3));
  }

  /**
   For a non-negative time the hours field is the whole hours zero padded to
   at least two digits, so it grows beyond two from a hundred hours on.
   */
  lemma HoursField(us: int, formatType: string)
    requires us >= 0
    ensures var r := FormatTimestamp(us, formatType);
            var n := |r| - (if formatType == "srt" || formatType == "vtt" then 10 else 6);
            && 2 <= n && r[..n] == ZeroPad(us / MicrosPerHour, 2)
            && AllDigits(r[..n]) && DigitsValue(r[..n]) == us / MicrosPerHour
  {
    var c := Split(us);
    SplitCorrect(us);
    var r := FormatTimestamp(us, formatType);
    var h := ZeroPad(c.hours, 2);
    var hms := Hms(c);
    HmsPrefixes(c, ',');
    HmsPrefixes(c, '.');
    if formatType == "srt" || formatType == "vtt" {
      var sep := if formatType == "srt" then ',' else '.';
      assert r == HmsMillis(c, sep);
      assert r[..|h|] == hms[..|h|];
    } else {
      assert r == hms;
    }
    assert AllDigits(h) && DigitsValue(h) == c.hours by {
      ZeroPadRoundTrip(c.hours, 2);
    }
  }

  /** `HH:MM:SS` is the hours field and six more characters; the milliseconds add four. */
  lemma HmsPrefixes(c: Clock, sep: char)
    requires InRange(c)
    ensures var h := FormatInt(c.hours, 2);
            && |Hms(c)| == |h| + 6 && Hms(c)[..|h|] == h
            && |HmsMillis(c, sep)| == |Hms(c)| + 4 && HmsMillis(c, sep)[..|Hms(c)|] == Hms(c)
  {
    ZeroPadExact(c.minutes, 2);
    ZeroPadExact(c.seconds, 2);
    ZeroPadExact(c.millis, 3);
  }

  /** A clock under 100 hours rendered digit by digit. */
  lemma ClockDigits(c: Clock, sep: char)
    requires InRange(c) && 0 <= c.hours < 100
    ensures HmsMillis(c, sep)
         == [DigitChar(c.hours / 10), DigitChar(c.hours % 10), ':',
             DigitChar(c.minutes / 10), DigitChar(c.minutes % 10), ':',
             DigitChar(c.seconds / 10), DigitChar(c.seconds % 10), sep,
             DigitChar(c.millis / 100), DigitChar(c.millis / 10 % 10), DigitChar(c.millis % 10)]
  {
    TwoDigits(c.hours);
    TwoDigits(c.minutes);
    TwoDigits(c.seconds);
    ThreeDigits(c.millis);
  }

  /** Every time within the first millisecond renders as zero. */
  lemma ExampleFirstMillisecond(us: int)
    requires 0 <= us < MicrosPerMilli
    ensures FormatTimestamp(us, "srt") == "00:00:00,000"
  {
    assert Split(us) == Clock(0, 0, 0, 0);
    ClockDigits(Split(us), ',');
  }

  /** Every time within the millisecond at 3661.5 s is one hour, one minute, one second and 500 ms. */
  lemma ExampleHourMinuteSecond(us: int)
    requires 3_661_500_000 <= us < 3_661_501_000
    ensures FormatTimestamp(us, "srt") == "01:01:01,500"
  {
    assert us / MicrosPerHour == 1 && us % MicrosPerHour == us - MicrosPerHour;
    assert us % MicrosPerMinute == us - 61 * MicrosPerMinute;
    assert us % MicrosPerSecond == us - 3661 * MicrosPerSecond;
    assert us / MicrosPerHour == 1 && us % MicrosPerHour == us - MicrosPerHour;
    assert us % MicrosPerMinute == us - 61 * MicrosPerMinute;
    assert us % MicrosPerSecond == us - 3661 * MicrosPerSecond;
    assert Split(us) == Clock(1, 1, 1, 500);
    ClockDigits(Split(us), ',');
  }

  /**
   Truncation: every time from 59.999 s up to but excluding 60 s, 59.9995 s
   among them, shows 59 s and 999 ms; nothing carries into the minutes.
   */
  lemma ExampleTruncation(us: int)
    requires 59_999_000 <= us < 60_000_000
    ensures FormatTimestamp(us, "srt") == "00:00:59,999"
    ensures FormatTimestamp(us, "vtt") == "00:00:59.999"
  {
    assert Split(us) == Clock(0, 0, 59, 999);
    ClockDigits(Split(us), ',');
    ClockDigits(Split(us), '.');
  }
}
