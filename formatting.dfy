/**
 * The duration formatter and the rest calculator (src/utils/formatting.py):
 * clock strings of the form HH:MM:SS, the rest time a work session earns,
 * and the "N hour(s)" phrase.
 */
module Formatting {
  import opened Text

  /** Two-digit padding: the decimal of `n`, left-padded with '0' to two characters at least. */
  function Pad2(n: nat): (s: string)
    ensures 2 <= |s| && IsDigits(s) && DigitsValue(s) == n
    ensures n < 100 <==> |s| == 2
    ensures 10 <= n ==> s == NatToString(n)
  {
    NatToStringRoundTrip(n);
    if n < 10 then LeadingZero(NatToString(n)); "0" + NatToString(n) else NatToString(n)
  }

  /**
   * A clock string: digits for the hours (two at least), ':', two digits
   * for the minutes, ':', two digits for the seconds.
   */
  predicate IsClockLayout(s: string) {
    && 8 <= |s|
    && s[|s| - 6] == ':' && s[|s| - 3] == ':'
    && IsDigits(s[..|s| - 6]) && IsDigits(s[|s| - 5..|s| - 3]) && IsDigits(s[|s| - 2..])
  }

  function HoursField(s: string): string
    requires 6 <= |s|
  {
    s[..|s| - 6]
  }

  function MinutesField(s: string): string
    requires 5 <= |s|
  {
    s[|s| - 5..|s| - 3]
  }

  function SecondsField(s: string): string
    requires 2 <= |s|
  {
    s[|s| - 2..]
  }

  /** Reads a clock string back as h * 3600 + m * 60 + s; None when it is not laid out as a clock. */
  function ParseDuration(s: string): Option<nat> {
    if IsClockLayout(s) then
      Some(DigitsValue(HoursField(s)) * 3600 + DigitsValue(MinutesField(s)) * 60 + DigitsValue(SecondsField(s)))
    else
      None
  }

  /**
   * format_duration: renders a second count as HH:MM:SS. The minute and
   * second fields are two digits below 60; the hour field is two digits at
   * least and widens, never wraps, past 99 hours.
   */
  function FormatDuration(seconds: nat): (r: string)
    ensures IsClockLayout(r)
    ensures DigitsValue(HoursField(r)) == seconds / 3600
    ensures DigitsValue(MinutesField(r)) == seconds % 3600 / 60 < 60
    ensures DigitsValue(SecondsField(r)) == seconds % 60
    ensures seconds < 360000 <==> |r| == 8
    ensures HoursField(r) == Pad2(seconds / 3600)
  {
    var h, m, s := Pad2(seconds / 3600), Pad2(seconds % 3600 / 60), Pad2(seconds % 60);
    JoinFields(h, m, s);
    assert seconds / 3600 < 100 <==> seconds < 360000;
    h + ":" + m + ":" + s
  }

  /** Where the three fields sit in a clock string joined from them. */
  lemma JoinFields(h: string, m: string, s: string)
    requires |m| == 2 && |s| == 2
    ensures var r := h + ":" + m + ":" + s;
      && |r| == |h| + 6
      && r[|r| - 6] == ':' && r[|r| - 3] == ':'
      && HoursField(r) == h && MinutesField(r) == m && SecondsField(r) == s
  {
    var r := h + ":" + m + ":" + s;
    assert r[..|r| - 6] == h && r[|r| - 5..|r| - 3] == m && r[|r| - 2..] == s;
  }

  /** Reading a formatted duration back recovers the second count exactly. */
  lemma FormatDurationRoundTrip(seconds: nat)
    ensures ParseDuration(FormatDuration(seconds)) == Some(seconds)
  {
    var r := FormatDuration(seconds);
    ClockArithmetic(seconds);
    ParseClock(r, seconds / 3600, seconds % 3600 / 60, seconds % 60);
  }

  /** A clock string whose fields denote h, m and s reads back as h * 3600 + m * 60 + s. */
  lemma ParseClock(r: string, h: nat, m: nat, s: nat)
    requires IsClockLayout(r)
    requires DigitsValue(HoursField(r)) == h && DigitsValue(MinutesField(r)) == m && DigitsValue(SecondsField(r)) == s
    ensures ParseDuration(r) == Some(h * 3600 + m * 60 + s)
  {
  }

  lemma ClockArithmetic(seconds: nat)
    ensures seconds / 3600 * 3600 + seconds % 3600 / 60 * 60 + seconds % 60 == seconds
  {
    var h, r := seconds / 3600, seconds % 3600;
    assert seconds == h * 3600 + r;
    assert r == r / 60 * 60 + r % 60;
    assert seconds == (h * 60 + r / 60) * 60 + r % 60;
    DivModUnique(seconds, 60, h * 60 + r / 60, r % 60);
  }

  /** Division with remainder has one answer. */
  lemma DivModUnique(n: int, d: int, q: int, m: int)
    requires 0 <= m < d && n == q * d + m
    ensures n / d == q && n % d == m
  {
    var q', m' := n / d, n % d;
    assert n == q' * d + m' && 0 <= m' < d;
    if q' < q {
      MulNonDecreasing(q' + 1, q, d);
    } else if q < q' {
      MulNonDecreasing(q + 1, q', d);
    }
  }

  /** The cases of tests/test_formatting.py below one hour. */
  lemma FormatDurationExamples()
    ensures FormatDuration(0) == "00:00:00"
    ensures FormatDuration(45) == "00:00:45"
    ensures FormatDuration(125) == "00:02:05"
  {
    assert DigitChar(0) == '0' && DigitChar(2) == '2' && DigitChar(4) == '4' && DigitChar(5) == '5';
    ClockOf(0, 0, 0, 0);
    ClockOf(45, 0, 0, 45);
    ClockOf(125, 0, 2, 5);
  }

  /** The cases of tests/test_formatting.py with whole hours. */
  lemma FormatDurationHourExamples()
    ensures FormatDuration(3661) == "01:01:01"
    ensures FormatDuration(36000) == "10:00:00"
  {
    assert DigitChar(0) == '0' && DigitChar(1) == '1';
    ClockOf(3661, 1, 1, 1);
    ClockOf(36000, 10, 0, 0);
  }

  /** ClockOfSmall with the three fields named, for a concrete second count. */
  lemma ClockOf(seconds: nat, h: nat, m: nat, s: nat)
    requires seconds < 360000 && h == seconds / 3600 && m == seconds % 3600 / 60 && s == seconds % 60
    ensures FormatDuration(seconds)
      == [DigitChar(h / 10), DigitChar(h % 10), ':', DigitChar(m / 10), DigitChar(m % 10), ':', DigitChar(s / 10), DigitChar(s % 10)]
  {
    ClockOfSmall(seconds);
  }

  /** Below 100 hours every field is exactly its two decimal digits. */
  lemma ClockOfSmall(seconds: nat)
    requires seconds < 360000
    ensures var h, m, s := seconds / 3600, seconds % 3600 / 60, seconds % 60;
      FormatDuration(seconds)
      == [DigitChar(h / 10), DigitChar(h % 10), ':', DigitChar(m / 10), DigitChar(m % 10), ':', DigitChar(s / 10), DigitChar(s % 10)]
  {
    Pad2Small(seconds / 3600);
    Pad2Small(seconds % 3600 / 60);
    Pad2Small(seconds % 60);
  }

  lemma Pad2Small(n: nat)
    requires n < 100
    ensures Pad2(n) == [DigitChar(n / 10), DigitChar(n % 10)]
  {
    if n < 10 {
      assert n / 10 == 0 && n % 10 == n;
      assert NatToString(n) == [DigitChar(n)];
      assert DigitChar(0) == '0';
    } else {
      assert NatToString(n / 10) == [DigitChar(n / 10)];
    }
  }

  function Max(a: int, b: int): int {
    if a < b then b else a
  }

  /**
   * calculate_rest_duration: the rest, in seconds, earned by `workSeconds`
   * of work. Whole minutes of work are counted; every started block of
   * `workRatio` minutes earns `restRatio` minutes; the result is never
   * below `minRestMinutes`.
   */
  function CalculateRestDuration(workSeconds: int, minRestMinutes: int, restRatio: int, workRatio: int): (r: int)
    requires workRatio > 0
    ensures r % 60 == 0
    ensures r >= minRestMinutes * 60
  {
    var workMinutes := workSeconds / 60;
    var restMinutes := (workMinutes / workRatio) * restRatio;
    var restMinutes := if workMinutes % workRatio > 0 then restMinutes + restRatio else restMinutes;
    Max(minRestMinutes, restMinutes) * 60
  }

  /**
   * The rest rule in closed form: with `blocks` the ceiling of
   * (whole work minutes) / workRatio, the rest is max(minRestMinutes,
   * blocks * restRatio) minutes. A partial block earns a full one.
   */
  lemma RestDurationIsCeiling(workSeconds: int, minRestMinutes: int, restRatio: int, workRatio: int, blocks: int)
    requires workRatio > 0
    requires (blocks - 1) * workRatio < workSeconds / 60 <= blocks * workRatio
    ensures CalculateRestDuration(workSeconds, minRestMinutes, restRatio, workRatio)
         == Max(minRestMinutes, blocks * restRatio) * 60
  {
    var m := workSeconds / 60;
    var q := m / workRatio;
    assert m == q * workRatio + m % workRatio;
    if m % workRatio == 0 {
      MulMonotone(blocks - 1, q, workRatio);
      MulMonotone(q, blocks + 1, workRatio);
      assert blocks == q;
    } else {
      MulMonotone(blocks - 1, q + 1, workRatio);
      MulMonotone(q, blocks, workRatio);
      assert blocks == q + 1;
    }
  }

  /** For a positive factor, a * k < b * k exactly when a < b. */
  lemma MulMonotone(a: int, b: int, k: int)
    requires k > 0
    ensures a * k < b * k <==> a < b
  {
    if a < b {
      assert b * k - a * k == (b - a) * k;
    } else {
      assert a * k - b * k == (a - b) * k;
    }
  }

  lemma MulNonDecreasing(a: int, b: int, k: int)
    requires a <= b && k >= 0
    ensures a * k <= b * k
  {
    assert b * k - a * k == (b - a) * k;
  }

  /** Seconds beyond the last whole minute earn nothing. */
  lemma RestIgnoresLeftoverSeconds(minutes: int, leftover: int, minRestMinutes: int, restRatio: int, workRatio: int)
    requires workRatio > 0 && 0 <= leftover < 60
    ensures CalculateRestDuration(minutes * 60 + leftover, minRestMinutes, restRatio, workRatio)
         == CalculateRestDuration(minutes * 60, minRestMinutes, restRatio, workRatio)
  {
    assert (minutes * 60 + leftover) / 60 == minutes;
    assert (minutes * 60) / 60 == minutes;
  }

  /** More work never earns less rest (when a block earns a non-negative rest). */
  lemma RestDurationMonotone(w1: int, w2: int, minRestMinutes: int, restRatio: int, workRatio: int)
    requires workRatio > 0 && restRatio >= 0 && w1 <= w2
    ensures CalculateRestDuration(w1, minRestMinutes, restRatio, workRatio)
         <= CalculateRestDuration(w2, minRestMinutes, restRatio, workRatio)
  {
    var b1, b2 := CeilBlocks(w1 / 60, workRatio), CeilBlocks(w2 / 60, workRatio);
    RestDurationIsCeiling(w1, minRestMinutes, restRatio, workRatio, b1);
    RestDurationIsCeiling(w2, minRestMinutes, restRatio, workRatio, b2);
    assert b1 <= b2 by {
      assert w1 / 60 <= w2 / 60;
      MulMonotone(b1 - 1, b2, workRatio);
    }
    MulNonDecreasing(b1, b2, restRatio);
  }

  /** The number of started blocks of `size` minutes in `minutes`, written as a ceiling. */
  function CeilBlocks(minutes: int, size: int): (b: int)
    requires size > 0
    ensures (b - 1) * size < minutes <= b * size
  {
    var q := minutes / size;
    if minutes % size == 0 then q else q + 1
  }

  /** The cases of tests/test_formatting.py, with the defaults 5, 5 and 25. */
  lemma RestDurationExamples()
    ensures CalculateRestDuration(0, 5, 5, 25) == 300
    ensures CalculateRestDuration(600, 5, 5, 25) == 300
    ensures CalculateRestDuration(1500, 5, 5, 25) == 300
    ensures CalculateRestDuration(3000, 5, 5, 25) == 600
    ensures CalculateRestDuration(1800, 5, 5, 25) == 600
  {
  }

  /** format_hours_text: "1 hour", otherwise the decimal of the count and " hours". */
  function FormatHoursText(hours: int): string {
    if hours == 1 then "1 hour" else IntToString(hours) + " hours"
  }

  /** The special case for one hour agrees with the general f-string "{hours} hours", bar the plural. */
  lemma HoursTextIsFString(hours: int)
    ensures FormatHoursText(hours) == IntToString(hours) + (if hours == 1 then " hour" else " hours")
  {
    if hours == 1 {
      assert IntToString(1) == "1" by { assert DigitChar(1) == '1'; }
    }
  }

  /** Reads "N hour" or "N hours" back into N; None for anything else. */
  function ParseHoursText(s: string): Option<int> {
    if EndsWith(s, " hours") then ParseInt(s[..|s| - 6])
    else if EndsWith(s, " hour") then ParseInt(s[..|s| - 5])
    else None
  }

  /** The phrase names its count, and the plural is used for every count but one. */
  lemma HoursTextRoundTrip(hours: int)
    ensures ParseHoursText(FormatHoursText(hours)) == Some(hours)
    ensures EndsWith(FormatHoursText(hours), " hours") <==> hours != 1
  {
    var s := FormatHoursText(hours);
    if hours == 1 {
      assert s == "1 hour";
      assert s[..1] == "1";
      assert !EndsWith(s, " hours") by { assert s[0] != " hours"[0]; }
      assert ParseInt("1") == Some(1) by { IntToStringRoundTrip(1); }
    } else {
      var t := IntToString(hours);
      assert s[..|s| - 6] == t;
      IntToStringRoundTrip(hours);
    }
  }
}
