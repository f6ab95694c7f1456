/** Human-readable rendering of durations (src/utils.rs). */
module Utils {
  import opened Wrappers
  import opened Text

  const U64_LIMIT: int := 0x1_0000_0000_0000_0000
  type u64 = x: int | 0 <= x < U64_LIMIT

  const MILLIS_PER_SECOND: nat := 1000
  const MILLIS_PER_MINUTE: nat := 60_000
  const MILLIS_PER_HOUR: nat := 3_600_000
  const NANOS_PER_MILLI: nat := 1_000_000

  /** `format_duration`: below a second the exact milliseconds; otherwise the duration rounded
      half-up to whole seconds and shown in the largest fitting unit, hours dropping the seconds.
      The source divides as f64 and calls `round`; `(ms + 500) / 1000` is the same value for every
      `ms` below 2^53. */
  function FormatDuration(ms: u64): string {
    if ms < MILLIS_PER_SECOND then NatToString(ms) + "ms"
    else
      var seconds := (ms + 500) / MILLIS_PER_SECOND;
      if seconds < 60 then NatToString(seconds) + "s"
      else
        var minutes := seconds / 60;
        var remSeconds := seconds % 60;
        if minutes < 60 then
          if remSeconds == 0 then NatToString(minutes) + "m"
          else NatToString(minutes) + "m " + NatToString(remSeconds) + "s"
        else
          var hours := minutes / 60;
          var remMinutes := minutes % 60;
          if remMinutes == 0 then NatToString(hours) + "h"
          else NatToString(hours) + "h " + NatToString(remMinutes) + "m"
  }

  /** Rust's `std::time::Duration`: whole seconds plus a sub-second nanosecond part. */
  datatype StdDuration = StdDuration(secs: u64, nanos: nat) {
    ghost predicate Valid() {
      nanos < 1_000_000_000
    }
  }

  function FromMillis(ms: u64): (d: StdDuration)
    ensures d.Valid()
  {
    StdDuration(ms / 1000, (ms % 1000) * NANOS_PER_MILLI)
  }

  function FromSecs(secs: u64): (d: StdDuration)
    ensures d.Valid()
  {
    StdDuration(secs, 0)
  }

  /** `Duration::as_millis`: whole milliseconds, truncating the sub-millisecond rest. */
  function AsMillis(d: StdDuration): nat {
    d.secs * 1000 + d.nanos / NANOS_PER_MILLI
  }

  /** `format_std_duration`: `as_millis() as u64`, which keeps the low 64 bits, then `format_duration`. */
  function FormatStdDuration(d: StdDuration): (r: string)
    ensures AsMillis(d) < U64_LIMIT ==> r == FormatDuration(AsMillis(d))
  {
    FormatDuration(AsMillis(d) % U64_LIMIT)
  }

  /** Reads back the amount a rendered duration denotes, in milliseconds:
      one of "<n>ms", "<n>s", "<n>m", "<n>m <k>s", "<n>h", "<n>h <k>m". */
  function ReadDuration(s: string): Option<nat> {
    var k := DigitPrefixLength(s);
    if k == 0 then None else ReadUnits(DigitsValue(s[..k]), s[k..])
  }

  /** The amount denoted by the number `n` followed by `rest`. */
  function ReadUnits(n: nat, rest: string): Option<nat> {
    if rest == "ms" then Some(n)
    else if rest == "s" then Some(n * MILLIS_PER_SECOND)
    else if rest == "m" then Some(n * MILLIS_PER_MINUTE)
    else if rest == "h" then Some(n * MILLIS_PER_HOUR)
    else if |rest| > 2 && rest[..2] == "m " then
      match ReadCount(rest[2..], "s")
      case Some(x) => Some(n * MILLIS_PER_MINUTE + x * MILLIS_PER_SECOND)
      case None => None
    else if |rest| > 2 && rest[..2] == "h " then
      match ReadCount(rest[2..], "m")
      case Some(x) => Some(n * MILLIS_PER_HOUR + x * MILLIS_PER_MINUTE)
      case None => None
    else None
  }

  /** A non-empty run of digits followed by exactly `unit`. */
  function ReadCount(s: string, unit: string): Option<nat> {
    var k := DigitPrefixLength(s);
    if k == 0 || s[k..] != unit then None else Some(DigitsValue(s[..k]))
  }

  /** Cutting `NatToString(n) + t` after its leading digits gives back `n` and `t`. */
  lemma NumberThen(n: nat, t: string)
    requires t == [] || !IsDigit(t[0])
    ensures var s := NatToString(n) + t; var k := DigitPrefixLength(s);
      k == |NatToString(n)| && s[..k] == NatToString(n) && s[k..] == t && DigitsValue(s[..k]) == n
  {
    var d := NatToString(n);
    DigitPrefixOfDigitsThen(d, t);
    assert (d + t)[..|d|] == d;
    assert (d + t)[|d|..] == t;
    DigitsValueOfNatToString(n);
  }

  lemma ReadCountOf(n: nat, unit: string)
    requires unit != [] && !IsDigit(unit[0])
    ensures ReadCount(NatToString(n) + unit, unit) == Some(n)
  {
    NumberThen(n, unit);
  }

  function UnitMillis(unit: string): nat {
    if unit == "ms" then 1 else if unit == "s" then MILLIS_PER_SECOND
    else if unit == "m" then MILLIS_PER_MINUTE else MILLIS_PER_HOUR
  }

  lemma ReadOneUnit(n: nat, unit: string)
    requires unit == "ms" || unit == "s" || unit == "m" || unit == "h"
    ensures ReadDuration(NatToString(n) + unit) == Some(n * UnitMillis(unit))
  {
    ReadAfterNumber(n, unit);
  }

  /** A number followed by text that does not start with a digit reads as that text after that number. */
  lemma ReadAfterNumber(n: nat, rest: string)
    requires rest != [] && !IsDigit(rest[0])
    ensures ReadDuration(NatToString(n) + rest) == ReadUnits(n, rest)
  {
    NumberThen(n, rest);
  }

  lemma ReadMinutesSeconds(m: nat, x: nat)
    ensures ReadDuration(NatToString(m) + "m " + NatToString(x) + "s")
         == Some(m * MILLIS_PER_MINUTE + x * MILLIS_PER_SECOND)
  {
    var rest := "m " + NatToString(x) + "s";
    assert NatToString(m) + "m " + NatToString(x) + "s" == NatToString(m) + rest;
    ReadAfterNumber(m, rest);
    ReadUnitsMinutesSeconds(m, x);
  }

  lemma ReadHoursMinutes(h: nat, x: nat)
    ensures ReadDuration(NatToString(h) + "h " + NatToString(x) + "m")
         == Some(h * MILLIS_PER_HOUR + x * MILLIS_PER_MINUTE)
  {
    var rest := "h " + NatToString(x) + "m";
    assert NatToString(h) + "h " + NatToString(x) + "m" == NatToString(h) + rest;
    ReadAfterNumber(h, rest);
    ReadUnitsHoursMinutes(h, x);
  }

  lemma ReadUnitsMinutesSeconds(n: nat, x: nat)
    ensures ReadUnits(n, "m " + NatToString(x) + "s") == Some(n * MILLIS_PER_MINUTE + x * MILLIS_PER_SECOND)
  {
    var rest := "m " + NatToString(x) + "s";
    assert |rest| > 2 && rest[..2] == "m ";
    assert rest[2..] == NatToString(x) + "s";
    ReadCountOf(x, "s");
  }

  lemma ReadUnitsHoursMinutes(n: nat, x: nat)
    ensures ReadUnits(n, "h " + NatToString(x) + "m") == Some(n * MILLIS_PER_HOUR + x * MILLIS_PER_MINUTE)
  {
    var rest := "h " + NatToString(x) + "m";
    assert |rest| > 2 && rest[..2] == "h " && rest[0] != 'm';
    assert rest[2..] == NatToString(x) + "m";
    ReadCountOf(x, "m");
  }

  /** What a rendered duration denotes: the exact value below one second; within half a second of
      the input while seconds are shown; and, once hours are shown, the input rounded to seconds with
      the seconds then dropped, so never more than half a second above nor a minute below it. */
  lemma FormatDurationReadBack(ms: u64)
    ensures ReadDuration(FormatDuration(ms)).Some?
    ensures var v := ReadDuration(FormatDuration(ms)).value;
      && (ms < 1000 ==> v == ms)
      && (1000 <= ms < 3_599_500 ==> ms - 500 < v <= ms + 500 && v % 1000 == 0)
      && (3_599_500 <= ms ==> ms - 60_000 < v <= ms + 500 && v % 60_000 == 0)
  {
    if ms < 1000 {
      ReadOneUnit(ms, "ms");
    } else {
      ReadBackRounded(ms);
      RoundingBounds(ms);
    }
  }

  /** Rounding to seconds moves a value by at most half a second; cutting the rounded seconds to
      whole minutes moves it by less than a minute more. */
  lemma RoundingBounds(ms: nat)
    requires ms >= 1000
    ensures var seconds := (ms + 500) / 1000;
      && ms - 500 < seconds * 1000 <= ms + 500 && (seconds * 1000) % 1000 == 0
      && (seconds < 3600 <==> ms < 3_599_500)
      && ms - 60_000 < (seconds / 60) * 60_000 <= ms + 500 && ((seconds / 60) * 60_000) % 60_000 == 0
  {
    var seconds := (ms + 500) / 1000;
    var minutes := seconds / 60;
    assert seconds * 1000 <= ms + 500 < seconds * 1000 + 1000;
    assert minutes * 60 <= seconds < minutes * 60 + 60;
    assert minutes * 60_000 == (minutes * 60) * 1000;
  }

  /** From one second on, the rendering denotes the rounded seconds, cut to whole minutes once hours show. */
  lemma ReadBackRounded(ms: u64)
    requires ms >= 1000
    ensures var seconds := (ms + 500) / 1000;
      ReadDuration(FormatDuration(ms))
        == Some(if seconds < 3600 then seconds * 1000 else (seconds / 60) * 60_000)
  {
    var seconds := (ms + 500) / 1000;
    var minutes := seconds / 60;
    if seconds < 3600 {
      assert FormatDuration(ms) == if seconds < 60 then NatToString(seconds) + "s"
        else if seconds % 60 == 0 then NatToString(minutes) + "m"
        else NatToString(minutes) + "m " + NatToString(seconds % 60) + "s";
      ReadBackSeconds(seconds);
    } else {
      assert FormatDuration(ms) == if minutes % 60 == 0 then NatToString(minutes / 60) + "h"
        else NatToString(minutes / 60) + "h " + NatToString(minutes % 60) + "m";
      ReadBackHours(seconds);
    }
  }

  /** The rounded-seconds branches denote exactly the rounded seconds. */
  lemma ReadBackSeconds(seconds: nat)
    requires 1 <= seconds < 3600
    ensures var out := if seconds < 60 then NatToString(seconds) + "s"
      else if seconds % 60 == 0 then NatToString(seconds / 60) + "m"
      else NatToString(seconds / 60) + "m " + NatToString(seconds % 60) + "s";
      ReadDuration(out) == Some(seconds * MILLIS_PER_SECOND)
  {
    var minutes, rem := seconds / 60, seconds % 60;
    assert minutes * 60_000 + rem * 1000 == seconds * 1000;
    if seconds < 60 {
      ReadOneUnit(seconds, "s");
    } else if rem == 0 {
      ReadOneUnit(minutes, "m");
    } else {
      ReadMinutesSeconds(minutes, rem);
    }
  }

  /** The hours branch denotes the rounded seconds cut down to whole minutes. */
  lemma ReadBackHours(seconds: nat)
    requires 3600 <= seconds
    ensures var minutes := seconds / 60;
      var out := if minutes % 60 == 0 then NatToString(minutes / 60) + "h"
        else NatToString(minutes / 60) + "h " + NatToString(minutes % 60) + "m";
      ReadDuration(out) == Some(minutes * MILLIS_PER_MINUTE)
  {
    var minutes := seconds / 60;
    if minutes % 60 == 0 {
      ReadOneUnit(minutes / 60, "h");
    } else {
      ReadHoursMinutes(minutes / 60, minutes % 60);
    }
  }

  /** The renderings below one minute fixed by the unit tests of `format_duration`. */
  lemma FormatDurationSecondsExamples()
    ensures FormatDuration(499) == "499ms" && FormatDuration(500) == "500ms"
    ensures FormatDuration(999) == "999ms" && FormatDuration(1000) == "1s"
    ensures FormatDuration(4999) == "5s" && FormatDuration(5000) == "5s"
  {
  }

  /** The renderings in minutes fixed by the unit tests; 59999 ms rounds up into the minutes branch. */
  lemma FormatDurationMinutesExamples()
    ensures FormatDuration(59_999) == "1m" && FormatDuration(60_000) == "1m"
    ensures FormatDuration(89_999) == "1m 30s" && FormatDuration(90_000) == "1m 30s"
  {
    assert NatToString(30) == "30";
  }

  /** The renderings in hours fixed by the unit tests; leftover seconds are dropped. */
  lemma FormatDurationHoursExamples()
    ensures FormatDuration(3_599_999) == "1h" && FormatDuration(3_600_000) == "1h"
    ensures FormatDuration(3_660_000) == "1h 1m" && FormatDuration(7_200_000) == "2h"
    ensures FormatDuration(7_260_000) == "2h 1m"
    ensures FormatDuration(8_999_999) == "2h 30m" && FormatDuration(9_000_000) == "2h 30m"
  {
    assert NatToString(30) == "30";
  }

  /** A `Duration` holding `ms` whole milliseconds, `ms` within u64, renders like `ms`: the
      conversion to u64 loses nothing. */
  lemma FormatStdDurationOfMillis(d: StdDuration, ms: u64)
    requires AsMillis(d) == ms
    ensures FormatStdDuration(d) == FormatDuration(ms)
  {
    assert AsMillis(d) % U64_LIMIT == ms;
  }

  /** A `Duration` built from milliseconds holds exactly those milliseconds and renders like them. */
  lemma {:induction false} FormatStdDurationFromMillis(ms: u64)
    ensures AsMillis(FromMillis(ms)) == ms
    ensures FormatStdDuration(FromMillis(ms)) == FormatDuration(ms)
  {
    assert (ms % 1000) * NANOS_PER_MILLI / NANOS_PER_MILLI == ms % 1000;
    FormatStdDurationOfMillis(FromMillis(ms), ms);
  }

  /** A `Duration` of whole seconds renders like its milliseconds. */
  lemma FormatStdDurationFromSecs(secs: u64)
    requires secs * 1000 < U64_LIMIT
    ensures FormatStdDuration(FromSecs(secs)) == FormatDuration(secs * 1000)
  {
    var ms := secs * 1000;
    assert AsMillis(FromSecs(secs)) == ms;
    FormatStdDurationOfMillis(FromSecs(secs), ms);
  }

  /** The renderings fixed by the unit tests of `format_std_duration`. */
  lemma FormatStdDurationExamples()
    ensures FormatStdDuration(FromMillis(500)) == "500ms"
    ensures FormatStdDuration(FromSecs(1)) == "1s" && FormatStdDuration(FromSecs(60)) == "1m"
    ensures FormatStdDuration(FromSecs(90)) == "1m 30s" && FormatStdDuration(FromSecs(3600)) == "1h"
    ensures FormatStdDuration(FromSecs(3660)) == "1h 1m"
  {
    FormatStdDurationFromMillis(500);
    FormatDurationSecondsExamples();
    FormatDurationMinutesExamples();
    FormatDurationHoursExamples();
    FormatStdDurationFromSecs(1);
    FormatStdDurationFromSecs(60);
    FormatStdDurationFromSecs(90);
    FormatStdDurationFromSecs(3600);
    FormatStdDurationFromSecs(3660);
  }
}
