# tibprice: a verified model of the price cache

`tibprice` keeps a local cache of the hourly electricity prices that the Tibber GraphQL API publishes:
today's points and, from early afternoon on, tomorrow's. A background worker decides when a new
list is due, fetches it with retries and exponential back-off, installs it only if it reaches
further into the future than the cached one, and saves it. The main thread reads the active price
and waits, with a timeout, for a newer list. This project models that decision logic in Dafny and
proves what the code promises about it.

The modules follow the source files:

- `Pricing` (`pricing.dfy`, src/pricing.rs) covers the `PricePoints` list:
  - coverage of today and tomorrow, the active price and the wait until the next point;
  - whether a fetch is due, and the wait until the next list;
  - recency between two lists;
  - parsing the `HH:MM` update time;
  - the stable sort applied on load and on fetch;
  - `try_update`.
- `SharedBuffer` (`shared_buffer.dfy`, src/shared_buffer.rs) is the class `SharedPricePoints`. It holds one list and replaces it only with a strictly more recent one.
- `TibberApi` (`tibberapi.dfy`, src/tibberapi.rs) covers:
  - the client configuration, its validation in `try_new`, and `adjusted_clone`;
  - the GraphQL home selector;
  - the retry loop of `fetch_price_info`, as a method with a `while` loop.
- `Utils` (`utils.dfy`, src/utils.rs) is the duration formatter.
- `Text` and `Wrappers` are shared helpers: decimal digits, Rust's `str::split`, `Option` and `Result`.

Conventions of the model:

- An instant is an integer count of nanoseconds since the Unix epoch, in UTC. This is chrono's precision.
- Durations the source returns are whole milliseconds.
- "Local" time is UTC shifted by a fixed offset, `offset`, in nanoseconds. The local day and time of day are the floor quotient and remainder of `t + offset` by one day.
- The clock is read once: `Utc::now()` and `Local::now()` both become the parameter `now`.
- Prices are `real` values that are carried along and never computed on.
- The network query is a function `responses` from the query number to its outcome.
- The outcome of writing the cache file is a parameter `saved`.
- Other threads' installs during a wait are a parameter `installs`.

Facts about the code's behaviour worth knowing, each proved in the model:

- With only today's prices, no fetch is due before the update time; one is due from the update time on (src/pricing.rs:165-189, as the comment at src/pricing.rs:173-174 says). `Pricing.TodayOnlyBeforeUpdateWaits` proves that the wait then runs to today's update time.
- The comment at src/pricing.rs:240-241 promises a zero wait when a fetch is due, and `Pricing.FetchDueIffNoWait` proves it. The converse holds only up to one millisecond: `duration_to_new_price_list` truncates to whole milliseconds, so an update instant less than 1 ms ahead gives 0 while no fetch is due yet. The lemma states the converse with that exception.
- The background worker (src/shared_buffer.rs:149-151) treats the result of `duration_to_new_price_list` as optional, but that function (src/pricing.rs:242) returns a plain duration. The model follows src/pricing.rs.
- The max-attempts test (src/tibberapi.rs:418-437) announces 3 queries. The loop makes `max_retries + 1` queries, which is 4 there. Its error message reports `max_retries` as the number of attempts. `TibberApi.RetryAlwaysFailing` proves 4 queries and an error carrying 3.

## Model

| member | source | states |
|---|---|---|
| Text.Split | src/pricing.rs:99 | `str::split(':')`: one part more than there are separators, and no part contains the separator |
| Text.JoinSplit | src/pricing.rs:99 | joining the parts of a split with the separator gives back the input |
| Text.SplitAroundSeparator | src/pricing.rs:99-105 | a string with exactly one separator splits into the two sides |
| Text.DigitsValueOfNatToString | src/utils.rs:6 | the decimal rendering `{}` of a number reads back as that number |
| Utils.FormatDuration | src/utils.rs:4-32 | `format_duration`, branch by branch. Its meaning is stated by `Utils.FormatDurationReadBack` and the example lemmas below, not by a contract of its own |
| Utils.FormatStdDuration | src/utils.rs:35-37 | a duration whose milliseconds fit in u64 renders exactly as `format_duration` of those milliseconds |
| Utils.FormatDurationReadBack | src/utils.rs:4-32 | the text always denotes an amount. Below 1 s it is the exact milliseconds. Up to the hours branch it is within half a second of the input, in whole seconds. In the hours branch it is in whole minutes, at most 0.5 s above and less than 60 s below the input |
| Utils.RoundingBounds | src/utils.rs:10-11 | rounding half-up to seconds moves the value by at most 0.5 s. The seconds branch is exactly `ms < 3_599_500`. Cutting to whole minutes stays within a minute |
| Utils.FormatDurationSecondsExamples | src/utils.rs:45-50 | 499, 500, 999, 1000, 4999 and 5000 ms render as "499ms", "500ms", "999ms", "1s", "5s", "5s" |
| Utils.FormatDurationMinutesExamples | src/utils.rs:51-54 | 59999 and 60000 ms render as "1m"; 89999 and 90000 ms as "1m 30s" |
| Utils.FormatDurationHoursExamples | src/utils.rs:55-61 | the hour renderings of the unit tests, with leftover seconds dropped ("1h", "1h 1m", "2h", "2h 1m", "2h 30m") |
| Utils.FormatStdDurationOfMillis | src/utils.rs:35-37 | a `Duration` of `ms` whole milliseconds, `ms` within u64, renders like `format_duration(ms)` |
| Utils.FormatStdDurationFromMillis | src/utils.rs:35-37 | `Duration::from_millis(ms)` holds exactly `ms` milliseconds and renders like `ms` |
| Utils.FormatStdDurationFromSecs | src/utils.rs:35-37 | `Duration::from_secs(s)` renders like `s * 1000` milliseconds |
| Utils.FormatStdDurationExamples | src/utils.rs:65-72 | the unit-test renderings of `format_std_duration`: "500ms", "1s", "1m", "1m 30s", "1h", "1h 1m" |
| TibberApi.TryNew | src/tibberapi.rs:79-109 | fails iff the mode is not `Never` and no token is given. Otherwise it stores every argument, a missing token as "", and the public API URL |
| TibberApi.AdjustedClone | src/tibberapi.rs:111-126 | keeps mode, token and home, takes the three new retry settings, and resets the URL to the public endpoint |
| TibberApi.AdjustedCloneOfNew | src/tibberapi.rs:111-126 | adjusting a client built by `try_new` equals building it with the new settings |
| TibberApi.AdjustedCloneRoundTrip | src/tibberapi.rs:111-126 | adjusting back to the original retry settings restores the client |
| TibberApi.HomeSelector | src/tibberapi.rs:188-194 | the selector is "homes" exactly when no home id is configured |
| TibberApi.HomeSelectorRoundTrip | src/tibberapi.rs:188-194 | the selector `home(id: "<id>")` names exactly the configured home, for any id |
| TibberApi.DelayAt | src/tibberapi.rs:228-258 | the first sleep is the initial delay, uncapped. Every later one is at most the maximum delay |
| TibberApi.NextDelay | src/tibberapi.rs:258 | the next delay never exceeds the maximum delay |
| TibberApi.DelayClosedForm | src/tibberapi.rs:228-258 | without u64 overflow the k-th delay (k >= 1) is `min(initial * 2^k, max)` |
| TibberApi.FirstSuccess | src/tibberapi.rs:230-248 | the first succeeding query in a range, with all earlier ones failing; none when all fail |
| TibberApi.RetryOutcome | src/tibberapi.rs:225-260 | the reference outcome of the retry loop. It succeeds iff one of the first `max_retries + 1` queries succeeds, and then carries the first success. Otherwise the error carries `max_retries` and the failure of the last query |
| TibberApi.FetchPriceInfo | src/tibberapi.rs:225-260 | returns the first success among `max_retries + 1` queries, without sleeping after it. Between 1 and `max_retries + 1` queries are made. When all fail, the error carries `max_retries` and the last failure. The sleeps follow after each failed query but the last, and form the back-off sequence |
| TibberApi.RetryTwoFailuresThenSuccess | src/tibberapi.rs:370-415 | two failures then a success: the success after 3 queries and sleeps of 1 and 2 ms |
| TibberApi.RetryAlwaysFailing | src/tibberapi.rs:418-437 | constant failure: 4 queries, sleeps of 1, 2 and 4 ms, and an error reporting 3 retries |
| Pricing.InsertByStart | src/pricing.rs:356 | inserting a point adds exactly that point to the multiset and puts it or the old head first |
| Pricing.InsertByStartSorted | src/pricing.rs:356 | insertion into a sorted list keeps it sorted |
| Pricing.InsertByStartRuns | src/pricing.rs:356 | insertion keeps the order of points that share a start, with the new point before its equals |
| Pricing.SortByStart | src/pricing.rs:356 | `sort_by` on the start is a stable sort: sorted, a permutation, and points with equal starts keep their relative order |
| Pricing.StableSortIsUnique | src/pricing.rs:375 | every stable sort of a list by start equals `SortByStart` of it |
| Pricing.MergePriceInfo | src/pricing.rs:368-378 | a fetched list is the stable sort of today's points followed by tomorrow's |
| Pricing.FromFile | src/pricing.rs:343-364 | a missing file gives the empty list. A read or parse error propagates. Otherwise it gives the stable sort of the stored points |
| Pricing.LoadSavedSorted | src/pricing.rs:343-364 | loading a list that is already sorted gives it back unchanged |
| Pricing.LatestPriceDate | src/pricing.rs:295-297 | none exactly for the empty list, otherwise the start of the last point |
| Pricing.HasMoreRecentPrices | src/pricing.rs:299-302 | true iff `s` is non-empty and `other` is empty or ends strictly earlier than `s` |
| Pricing.MoreRecentIsStrictOrder | src/pricing.rs:299-302 | `has_more_recent_prices` is irreflexive, asymmetric and transitive. An empty list is never more recent, and any non-empty list is more recent than an empty one |
| Pricing.LatestIsMaximum | src/pricing.rs:295-297 | in a sorted list the latest date is the largest start |
| Pricing.AnyStartsBefore | src/pricing.rs:305 | true iff some point starts strictly before the date |
| Pricing.AnyStartsAfter | src/pricing.rs:306 | true iff some point starts strictly after the date |
| Pricing.HasPricesForDate | src/pricing.rs:304-308 | true iff some point starts strictly before the date and some strictly after it; a point exactly at the date counts for neither |
| Pricing.HasTodayPrices | src/pricing.rs:316-319 | true iff some point starts strictly before now and some strictly after it |
| Pricing.HasTomorrowsPrices | src/pricing.rs:310-314 | true iff some point starts strictly before and some strictly after the instant one day from now |
| Pricing.SortedCoverage | src/pricing.rs:304-308 | for a sorted list, coverage means at least two points and the date strictly between the first and the last start |
| Pricing.CoverageExamples | src/pricing.rs:431-479 | yesterday plus tomorrow covers today; now plus the day after tomorrow covers tomorrow; a point exactly at now does not cover today |
| Pricing.NanosOfDay | src/pricing.rs:178 | a valid time of day lies within one day |
| Pricing.LocalInstantRoundTrip | src/pricing.rs:250-260 | the local day and time of day determine an instant, and `LocalInstant` rebuilds it from them |
| Pricing.ParseU32 | src/pricing.rs:108-113 | `str::parse::<u32>`: after dropping one optional leading `+`, a string is accepted iff the rest is a non-empty digit string with a value below 2^32. The value is that of the digits |
| Pricing.ParseU32SignExamples | src/pricing.rs:108-113 | a lone "+" is rejected and "+7" parses as 7 |
| Pricing.ParseU32OverflowExample | src/pricing.rs:108-113 | "4294967296", one past the largest u32, is rejected |
| Pricing.ParseU32RoundTrip | src/pricing.rs:108-113 | every u32 parses back from its decimal text, with or without a leading `+` |
| Pricing.ParseUpdateTime | src/pricing.rs:87-132 | "" gives 13:00. Anything without exactly one `:` is a format error. With one `:`, the result is fixed by the two parts. A part that is not a u32 gives `InvalidHour` or `InvalidMinute`, checked in that order. Otherwise an hour of 24 or more gives `HourOutOfRange`, and then a minute of 60 or more gives `MinuteOutOfRange`. Otherwise the result is that hour and minute with seconds 0 |
| Pricing.ParseFormatRoundTrip | src/pricing.rs:87-132 | every valid update time parses back from its `%H:%M` rendering |
| Pricing.ParseUnpaddedRoundTrip | src/pricing.rs:87-132 | "H:M" without padding parses to hour H, minute M for every hour below 24 and minute below 60 |
| Pricing.ParseUpdateTimeValidExamples | src/pricing.rs:510-540 | "13:00" and "" both give 13:00 |
| Pricing.ParseUpdateTimePlusSignExample | src/pricing.rs:108-113 | "+7:05" parses to 07:05 |
| Pricing.ParseUpdateTimeLeadingZerosExample | src/pricing.rs:108-113 | "007:5" parses to 07:05 |
| Pricing.ParseUpdateTimeInvalidFormatExample | src/pricing.rs:517-521 | "13" is a format error |
| Pricing.ParseUpdateTimeHourOutOfRangeExample | src/pricing.rs:523-527 | "25:00" is rejected for its hour |
| Pricing.ParseUpdateTimeMinuteOutOfRangeExample | src/pricing.rs:529-533 | "13:60" is rejected for its minute |
| Pricing.ActiveIndexFrom | src/pricing.rs:200-212 | the first index whose point has started while its successor has not; the last point is never active |
| Pricing.GetActivePrice | src/pricing.rs:190-215 | a price and a start together, or neither. None exactly when no adjacent pair brackets `now`. Otherwise the price and start of the first point that is active, on any input, sorted or not |
| Pricing.SortedActivePrice | src/pricing.rs:190-215 | in a sorted list at most one point is active. A price is found exactly when `first start <= now < last start` |
| Pricing.LastStartedIsActive | src/pricing.rs:200-212 | between a started point and the last start some adjacent pair brackets `now` |
| Pricing.ActivePriceExample | src/pricing.rs:481-508 | with points at now and an hour later, the first one is active |
| Pricing.FirstStartAfter | src/pricing.rs:228-236 | the first point that starts after `now`, all earlier ones having started; none when all have started |
| Pricing.DurationToNextActivePrice | src/pricing.rs:217-238 | none exactly when no point starts after `now`. Otherwise the wait to the first such point is strictly longer than the exact gap and at most 1 ms longer |
| Pricing.SortedNextActivePrice | src/pricing.rs:217-238 | in a sorted list the wait ends no later than 1 ms after every future start |
| Pricing.ShouldFetchPrices | src/pricing.rs:165-189 | a fetch is due without today's prices, never when both days are covered, and with only today's prices exactly from the update time on |
| Pricing.FetchDueWithoutToday | src/pricing.rs:165-189 | an empty list always asks for a fetch. A list that does not ask for one has at least two points |
| Pricing.DurationToNewPriceList | src/pricing.rs:242-293 | the wait is never negative and less than two days |
| Pricing.NewPriceListWaitsForUpdate | src/pricing.rs:242-293 | with today's prices and the update instant ahead, the wait reaches that instant to within 1 ms and never passes it. That instant is on the next local day when tomorrow's prices are there, today otherwise |
| Pricing.TomorrowUpdateIsAhead | src/pricing.rs:262-271 | with tomorrow's prices the update instant on the next local day is always ahead |
| Pricing.FetchDueIffNoWait | src/pricing.rs:165-293 | a due fetch gives a zero wait. A zero wait means a fetch is due or the update instant is less than 1 ms ahead |
| Pricing.NewPriceListAfterUpdateExample | src/pricing.rs:262-271 | at 14:00 local time with update time 13:00 and both days covered, no fetch is due and the wait is 23 h |
| Pricing.TodayOnlyBeforeUpdateWaits | src/pricing.rs:165-189 | with only today's prices, before the update time no fetch is due and the wait runs to today's update time |
| Pricing.FetchFromTibber | src/pricing.rs:368-378 | a query error propagates. Otherwise the result is the stable sort of today's points followed by tomorrow's |
| Pricing.TryUpdate | src/pricing.rs:380-417 | no fetch due, an empty fetch, or a fetch that is not more recent: list unchanged, `Ok(false)`. A fetch error: list unchanged, error. Otherwise the sorted fetched list replaces the list before the save, so a failed save returns an error with the new list installed. The list only ever becomes more recent |
| SharedBuffer.Install | src/shared_buffer.rs:99-108 | the held list after an install is the old one or the candidate, at least as recent as both |
| SharedBuffer.InstallKeepsUnlessMoreRecent | src/shared_buffer.rs:99-108 | the held list changes only for a strictly more recent candidate, never for an empty one |
| SharedBuffer.NotMoreRecentTransitive | src/shared_buffer.rs:99 | "ends no later than" is transitive |
| SharedBuffer.ApplyInstallsKeepsMostRecent | src/shared_buffer.rs:91-109 | over any sequence of installs the held list's latest date never decreases and ends at least as recent as every candidate. The held list is always the initial list or one of the candidates |
| SharedBuffer.ApplyInstalls | src/shared_buffer.rs:91-109 | the list held after a sequence of `set_new_prices` calls is the initial list or one of the candidates |
| SharedBuffer.HasNewPricesAfter | src/shared_buffer.rs:52 | `latest_price_date() > Some(after)`: true iff the list is non-empty and its last point starts after `after` |
| SharedBuffer.NewPricesMeaning | src/shared_buffer.rs:52-55 | the recency check is true iff the list is non-empty and its last start is after `after`; for a sorted list, iff some point starts after `after` |
| SharedBuffer.NewPricesStayNew | src/shared_buffer.rs:81-87 | once the check is true for `after`, no sequence of installs makes it false |
| SharedBuffer.SharedPricePoints.constructor | src/shared_buffer.rs:23-29 | the initial list is the held list |
| SharedBuffer.SharedPricePoints.ClonePrices | src/shared_buffer.rs:32-39 | returns the held list and changes nothing |
| SharedBuffer.SharedPricePoints.SetNewPrices | src/shared_buffer.rs:91-109 | returns true iff the candidate is strictly more recent, and then installs it. Otherwise the held list is unchanged. The latest date never decreases |
| SharedBuffer.SharedPricePoints.WaitForNewPrices | src/shared_buffer.rs:44-88 | true at once, with nothing changed, when the held list already ends after `after`. Otherwise the installs made during the wait are applied and the same check decides. The latest date never decreases |
| SharedBuffer.PriceDataUpdate | src/shared_buffer.rs:186-208 | a list an hour newer is installed, and the held list then ends at its start |
| SharedBuffer.PriceDataNoUpdateWithOlderPrices | src/shared_buffer.rs:210-232 | a list an hour older is refused, and the held list still ends at the newer start |

## Left out

- HTTP, GraphQL and JSON: `execute_tibber_query`, `fetch_home_ids`, and the response navigation with its `unwrap`s in `fetch_price_info_no_retry`. One query's outcome is the parameter `responses(i)`. The query text around the home selector is not modelled.
- File I/O: `to_file`, and the existence check, read and serde parsing in `from_file`. They become the parameters `fileExists`, `stored` and `saved`. Only the sort and the install-then-save order are modelled.
- Threads: the mutex, the condition variable, `notify_all` and the wait timeout in `wait_for_new_prices`. Each method is one atomic step, and the installs made by other threads during a wait are a parameter.
- `start_background_worker` (src/shared_buffer.rs:113-165): the worker loop, its `thread::sleep` and the random jitter. These are concurrency, timing and randomness.
- src/main.rs: argument parsing, logging, output and the display loop.
- Floating point:
  - prices are opaque;
  - `ActivePrice::to_string_pretty` (src/pricing.rs:51-80) renders through f64 and date formatting and is not modelled;
  - `format_duration` rounds through f64. The model uses the integer `(ms + 500) / 1000`, which differs only above 2^53 ms, where f64 no longer holds every millisecond.
- Time zones: local time is a fixed UTC offset. Daylight-saving changes, and the panic of `and_local_timezone(Local).unwrap()` in a DST gap, are not modelled. Neither are a wait that would come out negative and the `as u64` wrap-around it would cause.
- TibberApi.FetchPriceInfo: the attempt counter is unbounded. In the source it is a u32, which would overflow when `max_retries` is `u32::MAX`. The delay doubling wraps modulo 2^64 as in a release build; a debug build would panic there instead.
- TibberApi.FetchPriceInfo: the sleeps are recorded as a list of delays, not performed. Log messages are left out everywhere.
- Pricing.TryUpdate: takes the cached list as a value and returns the new one, rather than overwriting `*self` in place.
- Clock reads: the source reads `Utc::now()` and `Local::now()` several times within one query. The model uses one instant `now` for all of them.
