/** The price list and its scheduling queries (src/pricing.rs). Instants are nanoseconds since the
    epoch in UTC; "local" time is UTC shifted by a fixed offset; the current instant is a parameter. */
module Pricing {
  import opened Wrappers
  import opened Text
  import opened TibberApi
  import opened Utils

  const NANOS_PER_DAY: nat := 86_400_000_000_000
  const MILLIS_PER_DAY: nat := 86_400_000

  /** `PricePoints`: the list of price points, sorted by start once loaded or fetched. */
  type PricePoints = seq<PricePoint>

  /* ---------------------------------------------------------------------------------------------
     Order and sorting */

  predicate Sorted(s: PricePoints) {
    forall i, j :: 0 <= i < j < |s| ==> s[i].startsAt <= s[j].startsAt
  }

  /** The points of `s` that start at `t`, in their order in `s`. */
  function StartingAt(s: PricePoints, t: Instant): seq<PricePoint> {
    if s == [] then [] else (if s[0].startsAt == t then [s[0]] else []) + StartingAt(s[1..], t)
  }

  /** `r` is what a stable sort by start makes of `s`: sorted, and the points sharing a start keep
      their relative order (which also makes `r` a permutation of `s`). */
  ghost predicate IsStableSortOf(r: PricePoints, s: PricePoints) {
    Sorted(r) && multiset(r) == multiset(s) && forall t :: StartingAt(r, t) == StartingAt(s, t)
  }

  /** The points of `s` that start at `t`, when `s` is one point. */
  function RunOf(x: PricePoint, t: Instant): seq<PricePoint> {
    if x.startsAt == t then [x] else []
  }

  lemma StartingAtCons(x: PricePoint, s: PricePoints, t: Instant)
    ensures StartingAt([x] + s, t) == RunOf(x, t) + StartingAt(s, t)
  {
    assert ([x] + s)[1..] == s;
  }

  /** Inserts `p` in front of the first point of `s` that does not start before it. */
  function InsertByStart(p: PricePoint, s: PricePoints): (r: PricePoints)
    ensures multiset(r) == multiset(s) + multiset{p}
    ensures r != [] && (r[0] == p || (s != [] && r[0] == s[0]))
  {
    if s == [] || p.startsAt <= s[0].startsAt then [p] + s
    else
      assert s == [s[0]] + s[1..];
      [s[0]] + InsertByStart(p, s[1..])
  }

  lemma {:induction false} InsertByStartSorted(p: PricePoint, s: PricePoints)
    requires Sorted(s)
    ensures Sorted(InsertByStart(p, s))
  {
    if s != [] && p.startsAt > s[0].startsAt {
      var rest := InsertByStart(p, s[1..]);
      InsertByStartSorted(p, s[1..]);
      assert s[0].startsAt <= rest[0].startsAt;
      assert InsertByStart(p, s) == [s[0]] + rest;
    }
  }

  /** Past a point that starts earlier, insertion keeps that point in front. */
  lemma InsertByStartStep(p: PricePoint, s: PricePoints)
    requires s != [] && p.startsAt > s[0].startsAt
    ensures InsertByStart(p, s) == [s[0]] + InsertByStart(p, s[1..])
  {
  }

  /** Points with different starts never share a run, so their runs commute. */
  lemma RunsCommute(x: PricePoint, y: PricePoint, t: Instant, rest: seq<PricePoint>)
    requires x.startsAt != y.startsAt
    ensures RunOf(x, t) + (RunOf(y, t) + rest) == RunOf(y, t) + (RunOf(x, t) + rest)
  {
    if x.startsAt == t {
      assert RunOf(y, t) == [];
    } else {
      assert RunOf(x, t) == [];
    }
  }

  /** Inserting keeps the order among points that share a start: `p` goes before its equals. */
  lemma {:induction false} InsertByStartRuns(p: PricePoint, s: PricePoints, t: Instant)
    ensures StartingAt(InsertByStart(p, s), t) == StartingAt([p] + s, t)
  {
    if s != [] && p.startsAt > s[0].startsAt {
      var s0, tl := s[0], s[1..];
      var rest := InsertByStart(p, tl);
      calc {
        StartingAt(InsertByStart(p, s), t);
      == { InsertByStartStep(p, s); }
        StartingAt([s0] + rest, t);
      == { StartingAtCons(s0, rest, t); }
        RunOf(s0, t) + StartingAt(rest, t);
      == { InsertByStartRuns(p, tl, t); }
        RunOf(s0, t) + StartingAt([p] + tl, t);
      == { StartingAtCons(p, tl, t); }
        RunOf(s0, t) + (RunOf(p, t) + StartingAt(tl, t));
      == { RunsCommute(s0, p, t, StartingAt(tl, t)); }
        RunOf(p, t) + (RunOf(s0, t) + StartingAt(tl, t));
      == { StartingAtCons(s0, tl, t); assert [s0] + tl == s; }
        RunOf(p, t) + StartingAt(s, t);
      == { StartingAtCons(p, s, t); }
        StartingAt([p] + s, t);
      }
    }
  }

  /** Inserting a point into a stable sort of `tl` gives a stable sort of `[p] + tl`. */
  lemma InsertKeepsStableSort(p: PricePoint, rest: PricePoints, tl: PricePoints)
    requires IsStableSortOf(rest, tl)
    ensures IsStableSortOf(InsertByStart(p, rest), [p] + tl)
  {
    var r := InsertByStart(p, rest);
    InsertByStartSorted(p, rest);
    assert multiset([p] + tl) == multiset{p} + multiset(tl);
    forall t
      ensures StartingAt(r, t) == StartingAt([p] + tl, t)
    {
      InsertByStartRuns(p, rest, t);
      StartingAtCons(p, rest, t);
      StartingAtCons(p, tl, t);
    }
  }

  /** `sort_by(|a, b| a.starts_at.cmp(&b.starts_at))`: the standard library's stable sort. */
  function SortByStart(s: PricePoints): (r: PricePoints)
    ensures IsStableSortOf(r, s)
  {
    if s == [] then []
    else
      var rest := SortByStart(s[1..]);
      InsertKeepsStableSort(s[0], rest, s[1..]);
      assert s == [s[0]] + s[1..];
      InsertByStart(s[0], rest)
  }

  lemma StartingAtMembers(s: PricePoints, t: Instant, x: PricePoint)
    requires x in StartingAt(s, t)
    ensures x in s && x.startsAt == t
  {
    if s != [] && x !in StartingAt(s[1..], t) {
      assert x == s[0];
    } else if s != [] {
      StartingAtMembers(s[1..], t, x);
    }
  }

  /** Two sorted lists that agree, start by start, on the points and their order are equal. */
  lemma {:induction false} SortedSameRunsEqual(a: PricePoints, b: PricePoints)
    requires Sorted(a) && Sorted(b)
    requires forall t :: StartingAt(a, t) == StartingAt(b, t)
    ensures a == b
    decreases |a|
  {
    if a != [] {
      var t := a[0].startsAt;
      assert StartingAt(a, t)[0] == a[0];
      assert a[0] in StartingAt(b, t);
      StartingAtMembers(b, t, a[0]);
      var u := b[0].startsAt;
      assert b[0] in StartingAt(a, u);
      StartingAtMembers(a, u, b[0]);
      assert t == u;
      assert b[0] == a[0];
      forall t' ensures StartingAt(a[1..], t') == StartingAt(b[1..], t') {
        var head := if a[0].startsAt == t' then [a[0]] else [];
        assert StartingAt(a, t') == head + StartingAt(a[1..], t');
        assert StartingAt(b, t') == head + StartingAt(b[1..], t');
        assert (head + StartingAt(a[1..], t'))[|head|..] == StartingAt(a[1..], t');
        assert (head + StartingAt(b[1..], t'))[|head|..] == StartingAt(b[1..], t');
      }
      SortedSameRunsEqual(a[1..], b[1..]);
      assert a == [a[0]] + a[1..] && b == [b[0]] + b[1..];
    }
  }

  /** A stable sort has only one possible result: any stable sort of `s` is `SortByStart(s)`. */
  lemma StableSortIsUnique(r: PricePoints, s: PricePoints)
    requires IsStableSortOf(r, s)
    ensures r == SortByStart(s)
  {
    SortedSameRunsEqual(r, SortByStart(s));
  }

  /** `fetch_from_tibber` after a successful query: today's then tomorrow's points, sorted by start. */
  function MergePriceInfo(info: PriceInfo): (r: PricePoints)
    ensures IsStableSortOf(r, info.today + info.tomorrow)
  {
    SortByStart(info.today + info.tomorrow)
  }

  datatype LoadError = ReadFailed | ParseFailed

  /** `from_file`: an absent file is the empty list; otherwise the stored points (or the read or
      parse error) sorted by start. */
  function FromFile(fileExists: bool, stored: Result<seq<PricePoint>, LoadError>): (r: Result<PricePoints, LoadError>)
    ensures !fileExists ==> r == Ok([])
    ensures fileExists ==> (r.Ok? <==> stored.Ok?)
    ensures fileExists && stored.Err? ==> r == Err(stored.error)
    ensures fileExists && stored.Ok? ==> IsStableSortOf(r.value, stored.value)
  {
    if !fileExists then Ok([])
    else
      match stored
      case Ok(points) => Ok(SortByStart(points))
      case Err(e) => Err(e)
  }

  /** Loading what was saved gives the saved list back when it was sorted. */
  lemma LoadSavedSorted(s: PricePoints)
    requires Sorted(s)
    ensures FromFile(true, Ok(s)) == Ok(s)
  {
    StableSortIsUnique(s, s);
  }

  /* ---------------------------------------------------------------------------------------------
     Recency */

  /** `latest_price_date`: the start of the last point. */
  function LatestPriceDate(s: PricePoints): (r: Option<Instant>)
    ensures r.None? <==> s == []
    ensures r.Some? ==> r.value == s[|s| - 1].startsAt
  {
    if s == [] then None else Some(s[|s| - 1].startsAt)
  }

  /** Rust's derived order on `Option<DateTime>`: `None` is below every `Some`. */
  predicate OptionBefore(a: Option<Instant>, b: Option<Instant>) {
    match (a, b)
    case (None, Some(_)) => true
    case (Some(x), Some(y)) => x < y
    case _ => false
  }

  /** `has_more_recent_prices`: `s` ends strictly later than `other`. */
  function HasMoreRecentPrices(s: PricePoints, other: PricePoints): (r: bool)
    ensures r <==> s != [] && (other == [] || other[|other| - 1].startsAt < s[|s| - 1].startsAt)
  {
    OptionBefore(LatestPriceDate(other), LatestPriceDate(s))
  }

  /** Being more recent is a strict order: never of a list itself, never both ways, transitive;
      an empty list is never more recent and any non-empty list is more recent than an empty one. */
  lemma MoreRecentIsStrictOrder(a: PricePoints, b: PricePoints, c: PricePoints)
    ensures !HasMoreRecentPrices(a, a)
    ensures HasMoreRecentPrices(a, b) ==> !HasMoreRecentPrices(b, a)
    ensures HasMoreRecentPrices(a, b) && HasMoreRecentPrices(b, c) ==> HasMoreRecentPrices(a, c)
    ensures a == [] ==> !HasMoreRecentPrices(a, b)
    ensures a != [] && b == [] ==> HasMoreRecentPrices(a, b)
  {
  }

  /** In a sorted list the latest date is the latest start of any point. */
  lemma LatestIsMaximum(s: PricePoints)
    requires Sorted(s) && s != []
    ensures forall i :: 0 <= i < |s| ==> s[i].startsAt <= LatestPriceDate(s).value
  {
  }

  /* ---------------------------------------------------------------------------------------------
     Coverage */

  function AnyStartsBefore(s: PricePoints, date: Instant): (r: bool)
    ensures r <==> exists i :: 0 <= i < |s| && s[i].startsAt < date
  {
    if s == [] then false
    else
      assert forall i :: 0 < i < |s| ==> s[i] == s[1..][i - 1];
      s[0].startsAt < date || AnyStartsBefore(s[1..], date)
  }

  function AnyStartsAfter(s: PricePoints, date: Instant): (r: bool)
    ensures r <==> exists i :: 0 <= i < |s| && s[i].startsAt > date
  {
    if s == [] then false
    else
      assert forall i :: 0 < i < |s| ==> s[i] == s[1..][i - 1];
      s[0].startsAt > date || AnyStartsAfter(s[1..], date)
  }

  /** `has_prices_for_date`: some point starts strictly before `date` and some strictly after it;
      a point exactly at `date` counts for neither side. */
  function HasPricesForDate(s: PricePoints, date: Instant): (r: bool)
    ensures r <==> ((exists i :: 0 <= i < |s| && s[i].startsAt < date)
                    && (exists j :: 0 <= j < |s| && s[j].startsAt > date))
  {
    AnyStartsBefore(s, date) && AnyStartsAfter(s, date)
  }

  /** For a sorted list, coverage means `date` lies strictly between the first and the last start. */
  lemma {:induction false} SortedCoverage(s: PricePoints, date: Instant)
    requires Sorted(s)
    ensures HasPricesForDate(s, date) <==> |s| >= 2 && s[0].startsAt < date < s[|s| - 1].startsAt
  {
    if HasPricesForDate(s, date) {
      var i :| 0 <= i < |s| && s[i].startsAt < date;
      var j :| 0 <= j < |s| && s[j].startsAt > date;
      assert s[0].startsAt <= s[i].startsAt;
      assert s[j].startsAt <= s[|s| - 1].startsAt;
      assert i != j;
    }
  }

  /** `has_today_prices`: coverage of the current instant. */
  function HasTodayPrices(s: PricePoints, now: Instant): (r: bool)
    ensures r <==> ((exists i :: 0 <= i < |s| && s[i].startsAt < now)
                    && (exists j :: 0 <= j < |s| && s[j].startsAt > now))
  {
    HasPricesForDate(s, now)
  }

  /** `has_tomorrows_prices`: coverage of the same local time tomorrow, which with a fixed offset
      is the instant one day later. */
  function HasTomorrowsPrices(s: PricePoints, now: Instant): (r: bool)
    ensures r <==> ((exists i :: 0 <= i < |s| && s[i].startsAt < now + NANOS_PER_DAY)
                    && (exists j :: 0 <= j < |s| && s[j].startsAt > now + NANOS_PER_DAY))
  {
    HasPricesForDate(s, now + NANOS_PER_DAY)
  }

  /** The unit tests' lists: yesterday and tomorrow cover today; now and the day after tomorrow
      cover tomorrow. */
  lemma CoverageExamples(now: Instant, p: real, q: real)
    ensures HasTodayPrices([PricePoint(p, now - NANOS_PER_DAY), PricePoint(q, now + NANOS_PER_DAY)], now)
    ensures HasTomorrowsPrices([PricePoint(p, now), PricePoint(q, now + 2 * NANOS_PER_DAY)], now)
    ensures !HasTodayPrices([PricePoint(p, now), PricePoint(q, now + NANOS_PER_DAY)], now)
  {
    var a := [PricePoint(p, now - NANOS_PER_DAY), PricePoint(q, now + NANOS_PER_DAY)];
    assert a[0].startsAt < now && a[1].startsAt > now;
    var b := [PricePoint(p, now), PricePoint(q, now + 2 * NANOS_PER_DAY)];
    assert b[0].startsAt < now + NANOS_PER_DAY && b[1].startsAt > now + NANOS_PER_DAY;
  }

  /* ---------------------------------------------------------------------------------------------
     Local calendar */

  /** A time of day as chrono's `NaiveTime` holds it (leap seconds aside). */
  datatype NaiveTime = NaiveTime(hour: nat, minute: nat, second: nat) {
    predicate Valid() {
      hour < 24 && minute < 60 && second < 60
    }
  }

  function NanosOfDay(t: NaiveTime): (n: nat)
    requires t.Valid()
    ensures n < NANOS_PER_DAY
  {
    ((t.hour * 60 + t.minute) * 60 + t.second) * 1_000_000_000
  }

  /** The local calendar day (days since the epoch) of instant `t` under UTC offset `offset`. */
  function LocalDay(t: Instant, offset: int): int {
    (t + offset) / NANOS_PER_DAY
  }

  /** The local time of day of instant `t`, in nanoseconds since local midnight. */
  function LocalTimeOfDay(t: Instant, offset: int): nat {
    (t + offset) % NANOS_PER_DAY
  }

  /** `date.and_time(time).and_local_timezone(Local)`: the instant of local `day` at `timeOfDay`. */
  function LocalInstant(day: int, timeOfDay: nat, offset: int): Instant {
    day * NANOS_PER_DAY + timeOfDay - offset
  }

  /** The local day and time of day of an instant determine it, and `LocalInstant` rebuilds it. */
  lemma LocalInstantRoundTrip(t: Instant, day: int, timeOfDay: nat, offset: int)
    requires timeOfDay < NANOS_PER_DAY
    ensures LocalDay(LocalInstant(day, timeOfDay, offset), offset) == day
    ensures LocalTimeOfDay(LocalInstant(day, timeOfDay, offset), offset) == timeOfDay
    ensures LocalDay(t, offset) == day && LocalTimeOfDay(t, offset) == timeOfDay
            <==> t == LocalInstant(day, timeOfDay, offset)
  {
    var x := day * NANOS_PER_DAY + timeOfDay;
    assert LocalInstant(day, timeOfDay, offset) + offset == x;
    DivModOfDay(day, timeOfDay);
    assert t + offset == LocalDay(t, offset) * NANOS_PER_DAY + LocalTimeOfDay(t, offset);
  }

  lemma DivModOfDay(day: int, timeOfDay: nat)
    requires timeOfDay < NANOS_PER_DAY
    ensures (day * NANOS_PER_DAY + timeOfDay) / NANOS_PER_DAY == day
    ensures (day * NANOS_PER_DAY + timeOfDay) % NANOS_PER_DAY == timeOfDay
  {
    var x := day * NANOS_PER_DAY + timeOfDay;
    var q, r := x / NANOS_PER_DAY, x % NANOS_PER_DAY;
    assert x == q * NANOS_PER_DAY + r;
    assert (q - day) * NANOS_PER_DAY == timeOfDay - r;
  }

  /* ---------------------------------------------------------------------------------------------
     Update time */

  const DEFAULT_UPDATE_HOUR: nat := 13
  const DEFAULT_UPDATE_MINUTE: nat := 0

  datatype ParseError =
    | InvalidFormat(input: string)
    | InvalidHour(part: string)
    | InvalidMinute(part: string)
    | HourOutOfRange(hour: nat)
    | MinuteOutOfRange(minute: nat)

  /** Rust's `str::parse::<u32>`: an optional `+`, then at least one decimal digit, and a value below
      2^32. A lone `+`, any other character and an overflowing value are all rejected. */
  function ParseU32(s: string): (r: Option<nat>)
    ensures r.Some? ==> r.value < U32_LIMIT
    ensures var d := if s != [] && s[0] == '+' then s[1..] else s;
      r.Some? <==> (d != [] && AllDigits(d) && DigitsValue(d) < U32_LIMIT)
    ensures var d := if s != [] && s[0] == '+' then s[1..] else s;
      r.Some? ==> (AllDigits(d) && r.value == DigitsValue(d))
  {
    var digits := if s != [] && s[0] == '+' then s[1..] else s;
    if digits == [] || !AllDigits(digits) then None
    else
      var v := DigitsValue(digits);
      if v < U32_LIMIT then Some(v) else None
  }

  /** A lone `+` is rejected; a signed small number is accepted. */
  lemma ParseU32SignExamples()
    ensures ParseU32("+") == None
    ensures ParseU32("+7") == Some(7)
  {
    assert "+"[1..] == [];
    assert "+7"[1..] == "7";
    assert AllDigits("7") && DigitsValue("7") == 7;
  }

  /** The first value past u32 is rejected. */
  lemma ParseU32OverflowExample()
    ensures ParseU32("4294967296") == None
  {
    assert DigitsValue("4") == 4;
    assert "42"[..1] == "4";
    assert DigitsValue("42") == 42;
    assert "429"[..2] == "42";
    assert DigitsValue("429") == 429;
    assert "4294"[..3] == "429";
    assert DigitsValue("4294") == 4294;
    assert "42949"[..4] == "4294";
    assert DigitsValue("42949") == 42949;
    assert "429496"[..5] == "42949";
    assert DigitsValue("429496") == 429496;
    assert "4294967"[..6] == "429496";
    assert DigitsValue("4294967") == 4294967;
    assert "42949672"[..7] == "4294967";
    assert DigitsValue("42949672") == 42949672;
    assert "429496729"[..8] == "42949672";
    assert DigitsValue("429496729") == 429496729;
    assert "4294967296"[..9] == "429496729";
    assert DigitsValue("4294967296") == 4294967296;
  }

  /** Every u32 reads back from its decimal rendering, with or without a leading `+`. */
  lemma ParseU32RoundTrip(n: nat)
    requires n < U32_LIMIT
    ensures ParseU32(NatToString(n)) == Some(n)
    ensures ParseU32("+" + NatToString(n)) == Some(n)
  {
    DigitsValueOfNatToString(n);
    assert ("+" + NatToString(n))[1..] == NatToString(n);
  }

  /** `parse_update_time`: the empty string is the default 13:00; otherwise exactly two parts around
      one `:`, each a u32, an hour below 24 and a minute below 60. Seconds are always 0. */
  function ParseUpdateTime(s: string): (r: Result<NaiveTime, ParseError>)
    ensures r.Ok? ==> r.value.Valid() && r.value.second == 0
    ensures s == "" ==> r == Ok(NaiveTime(DEFAULT_UPDATE_HOUR, DEFAULT_UPDATE_MINUTE, 0))
    ensures s != "" && Count(s, ':') != 1 ==> r == Err(InvalidFormat(s))
    ensures s != "" && r.Ok? ==> (Count(s, ':') == 1
                                  && ParseU32(Split(s, ':')[0]) == Some(r.value.hour)
                                  && ParseU32(Split(s, ':')[1]) == Some(r.value.minute))
    ensures s != "" && Count(s, ':') == 1 ==>
      (var hour, minute := ParseU32(Split(s, ':')[0]), ParseU32(Split(s, ':')[1]);
       && (hour.None? ==> r == Err(InvalidHour(Split(s, ':')[0])))
       && (hour.Some? && minute.None? ==> r == Err(InvalidMinute(Split(s, ':')[1])))
       && (hour.Some? && minute.Some? && hour.value >= 24 ==> r == Err(HourOutOfRange(hour.value)))
       && (hour.Some? && minute.Some? && hour.value < 24 && minute.value >= 60 ==> r == Err(MinuteOutOfRange(minute.value)))
       && (hour.Some? && minute.Some? && hour.value < 24 && minute.value < 60 ==> r == Ok(NaiveTime(hour.value, minute.value, 0))))
  {
    if s == [] then Ok(NaiveTime(DEFAULT_UPDATE_HOUR, DEFAULT_UPDATE_MINUTE, 0))
    else
      var parts := Split(s, ':');
      if |parts| != 2 then Err(InvalidFormat(s))
      else
        match ParseU32(parts[0])
        case None => Err(InvalidHour(parts[0]))
        case Some(hours) =>
          match ParseU32(parts[1])
          case None => Err(InvalidMinute(parts[1]))
          case Some(minutes) =>
            if hours >= 24 then Err(HourOutOfRange(hours))
            else if minutes >= 60 then Err(MinuteOutOfRange(minutes))
            else Ok(NaiveTime(hours, minutes, 0))
  }

  /** Two decimal digits, zero-padded, as `%H` and `%M` print them. */
  function TwoDigits(n: nat): (s: string)
    requires n < 100
    ensures |s| == 2 && AllDigits(s)
  {
    [DigitChar(n / 10), DigitChar(n % 10)]
  }

  lemma TwoDigitsValue(n: nat)
    requires n < 100
    ensures DigitsValue(TwoDigits(n)) == n
  {
    var s := TwoDigits(n);
    assert s[..1] == [DigitChar(n / 10)];
    assert DigitsValue(s[..1]) == n / 10 by {
      assert s[..1][..0] == [];
    }
  }

  /** `time.format("%H:%M")`, the rendering the source logs the update time with. */
  function FormatHourMinute(t: NaiveTime): string
    requires t.Valid()
  {
    TwoDigits(t.hour) + ":" + TwoDigits(t.minute)
  }

  /** Parsing inverts formatting: every valid update time (seconds 0) reads back from "HH:MM". */
  lemma ParseFormatRoundTrip(t: NaiveTime)
    requires t.Valid() && t.second == 0
    ensures ParseUpdateTime(FormatHourMinute(t)) == Ok(t)
  {
    var h, m := TwoDigits(t.hour), TwoDigits(t.minute);
    assert ':' !in h && ':' !in m;
    SplitAroundSeparator(h, m, ':');
    assert FormatHourMinute(t) == h + [':'] + m;
    TwoDigitsValue(t.hour);
    TwoDigitsValue(t.minute);
    assert FormatHourMinute(t)[0] != '+';
  }

  /** Unpadded numbers parse too: "H:M" for every hour below 24 and minute below 60. */
  lemma ParseUnpaddedRoundTrip(hour: nat, minute: nat)
    requires hour < 24 && minute < 60
    ensures ParseUpdateTime(NatToString(hour) + ":" + NatToString(minute)) == Ok(NaiveTime(hour, minute, 0))
  {
    var h, m := NatToString(hour), NatToString(minute);
    assert ':' !in h by {
      forall i | 0 <= i < |h| ensures h[i] != ':' { assert IsDigit(h[i]); }
    }
    assert ':' !in m by {
      forall i | 0 <= i < |m| ensures m[i] != ':' { assert IsDigit(m[i]); }
    }
    SplitAroundSeparator(h, m, ':');
    assert h + ":" + m == h + [':'] + m;
    ParseU32RoundTrip(hour);
    ParseU32RoundTrip(minute);
  }

  /** The unit tests' well-formed inputs: "13:00" and the empty string both give 13:00. */
  lemma ParseUpdateTimeValidExamples()
    ensures ParseUpdateTime("13:00") == Ok(NaiveTime(13, 0, 0))
    ensures ParseUpdateTime("") == Ok(NaiveTime(13, 0, 0))
  {
    assert Split("13:00", ':') == ["13", "00"] by {
      assert "13:00" == "13" + [':'] + "00";
      SplitAroundSeparator("13", "00", ':');
    }
    assert DigitsValue("13") == 13 by { assert "13"[..1] == "1"; }
    assert DigitsValue("00") == 0 by { assert "00"[..1] == "0"; }
  }

  /** Parsing is as lenient as `str::parse::<u32>`: a leading `+` is accepted. */
  lemma ParseUpdateTimePlusSignExample()
    ensures ParseUpdateTime("+7:05") == Ok(NaiveTime(7, 5, 0))
  {
    assert Split("+7:05", ':') == ["+7", "05"] by {
      assert "+7:05" == "+7" + [':'] + "05";
      SplitAroundSeparator("+7", "05", ':');
    }
    assert ParseU32("+7") == Some(7) by {
      assert "+7"[0] == '+' && "+7"[1..] == "7";
      assert AllDigits("7") && DigitsValue("7") == 7;
    }
    assert ParseU32("05") == Some(5) by { assert "05"[..1] == "0"; }
  }

  /** Leading zeros are accepted too. */
  lemma ParseUpdateTimeLeadingZerosExample()
    ensures ParseUpdateTime("007:5") == Ok(NaiveTime(7, 5, 0))
  {
    assert Split("007:5", ':') == ["007", "5"] by {
      assert "007:5" == "007" + [':'] + "5";
      SplitAroundSeparator("007", "5", ':');
    }
    assert ParseU32("007") == Some(7) by {
      assert DigitsValue("007") == 7 by {
        assert "007"[..2] == "00";
        assert "00"[..1] == "0";
      }
    }
    assert ParseU32("5") == Some(5);
  }

  /** The unit tests' rejected inputs: no colon, hour 25, minute 60. */
  lemma ParseUpdateTimeInvalidFormatExample()
    ensures ParseUpdateTime("13") == Err(InvalidFormat("13"))
  {
    assert Count("13", ':') == 0;
  }

  lemma ParseUpdateTimeHourOutOfRangeExample()
    ensures ParseUpdateTime("25:00") == Err(HourOutOfRange(25))
  {
    assert Split("25:00", ':') == ["25", "00"] by {
      assert "25:00" == "25" + [':'] + "00";
      SplitAroundSeparator("25", "00", ':');
    }
    assert DigitsValue("25") == 25 by { assert "25"[..1] == "2"; }
    assert DigitsValue("00") == 0 by { assert "00"[..1] == "0"; }
  }

  lemma ParseUpdateTimeMinuteOutOfRangeExample()
    ensures ParseUpdateTime("13:60") == Err(MinuteOutOfRange(60))
  {
    assert Split("13:60", ':') == ["13", "60"] by {
      assert "13:60" == "13" + [':'] + "60";
      SplitAroundSeparator("13", "60", ':');
    }
    assert DigitsValue("13") == 13 by { assert "13"[..1] == "1"; }
    assert DigitsValue("60") == 60 by { assert "60"[..1] == "6"; }
  }

  /* ---------------------------------------------------------------------------------------------
     Active price */

  /** What `get_active_price` reports: a price and its start, or neither. */
  datatype ActivePrice = ActivePrice(price: Option<real>, startsAt: Option<Instant>)

  /** Point `i` is active at `now`: it has started and its successor has not. */
  predicate IsActiveAt(s: PricePoints, i: nat, now: Instant)
    requires i + 1 < |s|
  {
    s[i].startsAt <= now < s[i + 1].startsAt
  }

  /** The first index from `i` on whose point is active at `now`; the last point never is. */
  function ActiveIndexFrom(s: PricePoints, now: Instant, i: nat): (r: Option<nat>)
    decreases |s| - i
    ensures r.Some? ==> (i <= r.value && r.value + 1 < |s| && IsActiveAt(s, r.value, now)
                         && forall j :: i <= j < r.value ==> !IsActiveAt(s, j, now))
    ensures r.None? ==> forall j :: i <= j && j + 1 < |s| ==> !IsActiveAt(s, j, now)
  {
    if i + 1 >= |s| then None
    else if IsActiveAt(s, i, now) then Some(i)
    else ActiveIndexFrom(s, now, i + 1)
  }

  /** `get_active_price`: the first point `i` with `start[i] <= now < start[i + 1]`; none when the
      list is empty, has one point, or no adjacent pair brackets `now`. */
  function GetActivePrice(s: PricePoints, now: Instant): (r: ActivePrice)
    ensures r.price.Some? <==> r.startsAt.Some?
    ensures r.price.None? <==> forall j :: 0 <= j && j + 1 < |s| ==> !IsActiveAt(s, j, now)
    ensures r.price.Some? ==> (exists i :: 0 <= i && i + 1 < |s| && IsActiveAt(s, i, now)
                                && (forall j :: 0 <= j < i ==> !IsActiveAt(s, j, now))
                                && r == ActivePrice(Some(s[i].total), Some(s[i].startsAt)))
  {
    if s == [] then ActivePrice(None, None)
    else
      match ActiveIndexFrom(s, now, 0)
      case Some(i) => ActivePrice(Some(s[i].total), Some(s[i].startsAt))
      case None => ActivePrice(None, None)
  }

  /** In a sorted list at most one point is active, and one is exactly when `now` lies in
      `[first start, last start)`: before the first point or from the last start on there is none. */
  lemma {:induction false} SortedActivePrice(s: PricePoints, now: Instant)
    requires Sorted(s)
    ensures forall i, j ::
      (0 <= i && i + 1 < |s| && 0 <= j && j + 1 < |s| && IsActiveAt(s, i, now) && IsActiveAt(s, j, now)) ==> i == j
    ensures GetActivePrice(s, now).price.Some? <==> |s| >= 2 && s[0].startsAt <= now < s[|s| - 1].startsAt
  {
    if |s| >= 2 && s[0].startsAt <= now < s[|s| - 1].startsAt {
      LastStartedIsActive(s, now, 0);
    }
  }

  /** Between the start of point `i` and the last start some adjacent pair brackets `now`. */
  lemma {:induction false} LastStartedIsActive(s: PricePoints, now: Instant, i: nat)
    requires i + 1 < |s| && s[i].startsAt <= now < s[|s| - 1].startsAt
    ensures exists j :: i <= j && j + 1 < |s| && IsActiveAt(s, j, now)
    decreases |s| - i
  {
    if !IsActiveAt(s, i, now) {
      LastStartedIsActive(s, now, i + 1);
    }
  }

  /** The unit test's list: a point starting now and one an hour later make the first active. */
  lemma ActivePriceExample(now: Instant, p: real, q: real)
    ensures GetActivePrice([PricePoint(p, now), PricePoint(q, now + 3_600_000_000_000)], now)
         == ActivePrice(Some(p), Some(now))
  {
    var s := [PricePoint(p, now), PricePoint(q, now + 3_600_000_000_000)];
    assert IsActiveAt(s, 0, now);
  }

  /* ---------------------------------------------------------------------------------------------
     Waiting for the next point */

  /** The first index from `i` on whose point starts after `now`. */
  function FirstStartAfter(s: PricePoints, now: Instant, i: nat): (r: Option<nat>)
    decreases |s| - i
    ensures r.Some? ==> (i <= r.value < |s| && s[r.value].startsAt > now
                         && forall j :: i <= j < r.value ==> s[j].startsAt <= now)
    ensures r.None? ==> forall j :: i <= j < |s| ==> s[j].startsAt <= now
  {
    if i >= |s| then None
    else if s[i].startsAt > now then Some(i)
    else FirstStartAfter(s, now, i + 1)
  }

  /** `duration_to_next_active_price`, in milliseconds: the whole milliseconds until the first point
      that starts after `now`, plus one. The wait is therefore strictly longer than the exact gap and
      at most one millisecond longer; none when no point starts after `now`. */
  function DurationToNextActivePrice(s: PricePoints, now: Instant): (r: Option<nat>)
    ensures r.None? <==> forall j :: 0 <= j < |s| ==> s[j].startsAt <= now
    ensures r.Some? ==> var i := FirstStartAfter(s, now, 0).value;
      && s[i].startsAt - now < r.value * NANOS_PER_MILLI <= s[i].startsAt - now + NANOS_PER_MILLI
      && forall j :: 0 <= j < i ==> s[j].startsAt <= now
  {
    if s == [] then None
    else
      match FirstStartAfter(s, now, 0)
      case Some(i) => Some((s[i].startsAt - now) / NANOS_PER_MILLI + 1)
      case None => None
  }

  /** In a sorted list the wait ends just after the earliest start still to come. */
  lemma SortedNextActivePrice(s: PricePoints, now: Instant)
    requires Sorted(s)
    requires DurationToNextActivePrice(s, now).Some?
    ensures var wake := now + DurationToNextActivePrice(s, now).value * NANOS_PER_MILLI;
      forall j :: 0 <= j < |s| && s[j].startsAt > now ==> wake - NANOS_PER_MILLI <= s[j].startsAt
  {
    var i := FirstStartAfter(s, now, 0).value;
    assert forall j :: 0 <= j < |s| && s[j].startsAt > now ==> i <= j;
  }

  /* ---------------------------------------------------------------------------------------------
     Fetch schedule */

  /** `should_fetch_prices`: today's coverage is missing, or tomorrow's is missing and the local
      time of day has reached the update time. */
  function ShouldFetchPrices(s: PricePoints, updateTime: NaiveTime, now: Instant, offset: int): (r: bool)
    requires updateTime.Valid()
    ensures !HasTodayPrices(s, now) ==> r
    ensures HasTodayPrices(s, now) && HasTomorrowsPrices(s, now) ==> !r
    ensures HasTodayPrices(s, now) && !HasTomorrowsPrices(s, now)
      ==> (r <==> LocalTimeOfDay(now, offset) >= NanosOfDay(updateTime))
  {
    !HasTodayPrices(s, now)
    || (!HasTomorrowsPrices(s, now) && LocalTimeOfDay(now, offset) >= NanosOfDay(updateTime))
  }

  /** An empty list always asks for a fetch; a list that does not ask for one has a point before
      and a point after `now`. */
  lemma FetchDueWithoutToday(s: PricePoints, updateTime: NaiveTime, now: Instant, offset: int)
    requires updateTime.Valid()
    ensures s == [] ==> ShouldFetchPrices(s, updateTime, now, offset)
    ensures !ShouldFetchPrices(s, updateTime, now, offset) ==> |s| >= 2
  {
    if !ShouldFetchPrices(s, updateTime, now, offset) {
      var i :| 0 <= i < |s| && s[i].startsAt < now;
      var j :| 0 <= j < |s| && s[j].startsAt > now;
      assert i != j;
    }
  }

  /** `duration_to_new_price_list`, in milliseconds: 0 without today's prices; with tomorrow's
      prices the time until the update time on the next local day; past today's update time 0;
      otherwise the time until today's update time. Each wait is truncated to whole milliseconds. */
  function DurationToNewPriceList(s: PricePoints, updateTime: NaiveTime, now: Instant, offset: int): (r: nat)
    requires updateTime.Valid()
    ensures r < 2 * MILLIS_PER_DAY
  {
    if !HasTodayPrices(s, now) then 0
    else
      var today := LocalDay(now, offset);
      var todayUpdate := LocalInstant(today, NanosOfDay(updateTime), offset);
      var tomorrowUpdate := LocalInstant(today + 1, NanosOfDay(updateTime), offset);
      assert now + offset == today * NANOS_PER_DAY + LocalTimeOfDay(now, offset);
      if HasTomorrowsPrices(s, now) then (tomorrowUpdate - now) / NANOS_PER_MILLI
      else if now > todayUpdate then 0
      else (todayUpdate - now) / NANOS_PER_MILLI
  }

  /** The instant the list waits for: the update time on the next local day when tomorrow's prices
      are there, on the current local day otherwise. */
  predicate IsUpdateInstant(target: Instant, updateTime: NaiveTime, s: PricePoints, now: Instant, offset: int)
    requires updateTime.Valid()
  {
    && LocalDay(target, offset) == LocalDay(now, offset) + (if HasTomorrowsPrices(s, now) then 1 else 0)
    && LocalTimeOfDay(target, offset) == NanosOfDay(updateTime)
  }

  /** While today's prices are there and the update instant still lies ahead, the wait is the
      whole milliseconds until that instant: waking after it would be at most 1 ms early. */
  lemma {:induction false} NewPriceListWaitsForUpdate(s: PricePoints, updateTime: NaiveTime, now: Instant, offset: int, target: Instant)
    requires updateTime.Valid()
    requires HasTodayPrices(s, now)
    requires IsUpdateInstant(target, updateTime, s, now, offset)
    requires target >= now
    ensures var r := DurationToNewPriceList(s, updateTime, now, offset);
      now + r * NANOS_PER_MILLI <= target < now + r * NANOS_PER_MILLI + NANOS_PER_MILLI
  {
    var today := LocalDay(now, offset);
    var day := today + (if HasTomorrowsPrices(s, now) then 1 else 0);
    LocalInstantRoundTrip(target, day, NanosOfDay(updateTime), offset);
    assert target == LocalInstant(day, NanosOfDay(updateTime), offset);
  }

  /** With tomorrow's prices the update instant is on the next local day, so it always lies ahead. */
  lemma {:induction false} TomorrowUpdateIsAhead(s: PricePoints, updateTime: NaiveTime, now: Instant, offset: int, target: Instant)
    requires updateTime.Valid()
    requires HasTomorrowsPrices(s, now)
    requires IsUpdateInstant(target, updateTime, s, now, offset)
    ensures target > now
  {
    var today := LocalDay(now, offset);
    LocalInstantRoundTrip(target, today + 1, NanosOfDay(updateTime), offset);
    LocalInstantRoundTrip(now, today, LocalTimeOfDay(now, offset), offset);
  }

  /** A fetch is due exactly when there is nothing to wait for: a due fetch gives a zero wait, and a
      zero wait means the fetch is due or the update instant is less than a millisecond away. */
  lemma {:induction false} FetchDueIffNoWait(s: PricePoints, updateTime: NaiveTime, now: Instant, offset: int, target: Instant)
    requires updateTime.Valid()
    requires IsUpdateInstant(target, updateTime, s, now, offset)
    ensures ShouldFetchPrices(s, updateTime, now, offset) ==> DurationToNewPriceList(s, updateTime, now, offset) == 0
    ensures DurationToNewPriceList(s, updateTime, now, offset) == 0
      ==> ShouldFetchPrices(s, updateTime, now, offset) || now < target < now + NANOS_PER_MILLI
  {
    var today := LocalDay(now, offset);
    var day := today + (if HasTomorrowsPrices(s, now) then 1 else 0);
    LocalInstantRoundTrip(target, day, NanosOfDay(updateTime), offset);
    LocalInstantRoundTrip(now, today, LocalTimeOfDay(now, offset), offset);
  }

  /** With today's and tomorrow's prices, at 14:00 local time and update time 13:00, the wait is 23 hours. */
  lemma NewPriceListAfterUpdateExample(s: PricePoints, now: Instant, offset: int)
    requires HasTodayPrices(s, now) && HasTomorrowsPrices(s, now)
    requires LocalTimeOfDay(now, offset) == 14 * 3_600_000_000_000
    ensures !ShouldFetchPrices(s, NaiveTime(13, 0, 0), now, offset)
    ensures DurationToNewPriceList(s, NaiveTime(13, 0, 0), now, offset) == 23 * 3_600_000
  {
    var today := LocalDay(now, offset);
    LocalInstantRoundTrip(now, today, LocalTimeOfDay(now, offset), offset);
  }

  /** With only today's prices and the update time still ahead, no fetch is due and the wait runs
      until today's update time. */
  lemma TodayOnlyBeforeUpdateWaits(s: PricePoints, updateTime: NaiveTime, now: Instant, offset: int)
    requires updateTime.Valid()
    requires HasTodayPrices(s, now) && !HasTomorrowsPrices(s, now)
    requires LocalTimeOfDay(now, offset) + NANOS_PER_MILLI <= NanosOfDay(updateTime)
    ensures !ShouldFetchPrices(s, updateTime, now, offset)
    ensures DurationToNewPriceList(s, updateTime, now, offset)
         == (NanosOfDay(updateTime) - LocalTimeOfDay(now, offset)) / NANOS_PER_MILLI > 0
  {
    var today := LocalDay(now, offset);
    LocalInstantRoundTrip(now, today, LocalTimeOfDay(now, offset), offset);
  }

  /* ---------------------------------------------------------------------------------------------
     Fetch and update */

  /** `fetch_from_tibber`: the retrying query, then today's and tomorrow's points sorted by start. */
  method FetchFromTibber(client: TibberClient, responses: nat -> Result<PriceInfo, CallError>)
    returns (r: Result<PricePoints, FetchError>)
    ensures RetryOutcome(client, responses).Err? ==> r == Err(RetryOutcome(client, responses).error)
    ensures RetryOutcome(client, responses).Ok? ==>
      (r.Ok? && IsStableSortOf(r.value, RetryOutcome(client, responses).value.today + RetryOutcome(client, responses).value.tomorrow))
  {
    var info, _, _ := FetchPriceInfo(client, responses);
    match info {
      case Ok(i) =>
        var all := i.today;
        all := all + i.tomorrow;
        r := Ok(SortByStart(all));
      case Err(e) =>
        r := Err(e);
    }
  }

  datatype UpdateError = FetchFailed(cause: FetchError) | SaveFailed

  /** `try_update`: when a fetch is due, fetch; install the fetched list only if it is non-empty and
      strictly more recent, then save it. `saved` is whether writing the file succeeds. The list is
      replaced before the save, so a failed save returns an error with the new list installed. */
  method TryUpdate(current: PricePoints, client: TibberClient, responses: nat -> Result<PriceInfo, CallError>,
                   saved: bool, updateTime: NaiveTime, now: Instant, offset: int)
    returns (updated: PricePoints, r: Result<bool, UpdateError>)
    requires updateTime.Valid()
    ensures !ShouldFetchPrices(current, updateTime, now, offset) ==> updated == current && r == Ok(false)
    ensures ShouldFetchPrices(current, updateTime, now, offset) && RetryOutcome(client, responses).Err?
      ==> updated == current && r == Err(FetchFailed(RetryOutcome(client, responses).error))
    ensures ShouldFetchPrices(current, updateTime, now, offset) && RetryOutcome(client, responses).Ok?
      ==> var fetched := MergePriceInfo(RetryOutcome(client, responses).value);
          if fetched == [] || !HasMoreRecentPrices(fetched, current) then updated == current && r == Ok(false)
          else updated == fetched && r == (if saved then Ok(true) else Err(SaveFailed))
    ensures updated == current || (HasMoreRecentPrices(updated, current) && Sorted(updated))
    ensures r == Ok(true) ==> HasMoreRecentPrices(updated, current)
  {
    updated := current;
    if !ShouldFetchPrices(current, updateTime, now, offset) {
      return current, Ok(false);
    }
    var newPrices := FetchFromTibber(client, responses);
    if newPrices.Err? {
      return current, Err(FetchFailed(newPrices.error));
    }
    var fetched := newPrices.value;
    StableSortIsUnique(fetched, RetryOutcome(client, responses).value.today + RetryOutcome(client, responses).value.tomorrow);
    if fetched == [] {
      return current, Ok(false);
    }
    if !HasMoreRecentPrices(fetched, current) {
      return current, Ok(false);
    }
    updated := fetched;
    if !saved {
      return updated, Err(SaveFailed);
    }
    r := Ok(true);
  }
}
