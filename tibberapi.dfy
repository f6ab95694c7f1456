/** The Tibber API client (src/tibberapi.rs): the price records it returns, its construction and
    the retry loop with exponential back-off around one fallible price query. The HTTP request and
    the JSON navigation are not modelled: one query's outcome is given as a value. */
module TibberApi {
  import opened Wrappers
  import opened Utils

  const U32_LIMIT: int := 0x1_0000_0000
  type u32 = x: int | 0 <= x < U32_LIMIT

  /** An instant in nanoseconds since the Unix epoch, in UTC. */
  type Instant = int

  /** One tariff record. The price is carried along and never computed on. */
  datatype PricePoint = PricePoint(total: real, startsAt: Instant)

  /** What one price query returns: today's and tomorrow's points. */
  datatype PriceInfo = PriceInfo(today: seq<PricePoint>, tomorrow: seq<PricePoint>)

  datatype ConnectMode = Auto | Never | Always

  const API_URL: string := "https://api.tibber.com/v1-beta/gql"

  /** The client's configuration (the HTTP client object itself is left out). */
  datatype TibberClient = TibberClient(
    connectMode: ConnectMode,
    accessToken: string,
    homeId: Option<string>,
    maxRetries: u32,
    initialDelayMs: u64,
    maxDelayMs: u64,
    apiUrl: string)

  datatype ClientError = AccessTokenRequired

  /** `try_new`: an access token is required unless the client never connects; a missing token is
      then stored as the empty string. The URL is always the public endpoint. */
  function TryNew(connectMode: ConnectMode, accessToken: Option<string>, homeId: Option<string>,
                  maxRetries: u32, initialDelayMs: u64, maxDelayMs: u64): (r: Result<TibberClient, ClientError>)
    ensures r.Err? <==> connectMode != Never && accessToken.None?
    ensures r.Ok? ==> && r.value.connectMode == connectMode && r.value.homeId == homeId
                      && r.value.accessToken == (if accessToken.Some? then accessToken.value else "")
                      && r.value.maxRetries == maxRetries && r.value.initialDelayMs == initialDelayMs
                      && r.value.maxDelayMs == maxDelayMs && r.value.apiUrl == API_URL
  {
    if connectMode != Never && accessToken.None? then Err(AccessTokenRequired)
    else
      var token := match accessToken case Some(t) => t case None => "";
      Ok(TibberClient(connectMode, token, homeId, maxRetries, initialDelayMs, maxDelayMs, API_URL))
  }

  /** `adjusted_clone`: `try_new` again with this client's mode, token and home, and new retry
      settings. The token is passed as present, so the construction never fails. */
  function AdjustedClone(client: TibberClient, maxRetries: u32, initialDelayMs: u64, maxDelayMs: u64): (r: TibberClient)
    ensures r.connectMode == client.connectMode && r.accessToken == client.accessToken
    ensures r.homeId == client.homeId && r.apiUrl == API_URL
    ensures r.maxRetries == maxRetries && r.initialDelayMs == initialDelayMs && r.maxDelayMs == maxDelayMs
  {
    match TryNew(client.connectMode, Some(client.accessToken), client.homeId, maxRetries, initialDelayMs, maxDelayMs)
    case Ok(c) => c
    case Err(_) => assert false; client
  }

  /** Adjusting a client built by `try_new` is the same as building it with the new retry settings. */
  lemma AdjustedCloneOfNew(connectMode: ConnectMode, accessToken: Option<string>, homeId: Option<string>,
                           maxRetries: u32, initialDelayMs: u64, maxDelayMs: u64,
                           maxRetries': u32, initialDelayMs': u64, maxDelayMs': u64)
    requires TryNew(connectMode, accessToken, homeId, maxRetries, initialDelayMs, maxDelayMs).Ok?
    ensures var c := TryNew(connectMode, accessToken, homeId, maxRetries, initialDelayMs, maxDelayMs).value;
      TryNew(connectMode, accessToken, homeId, maxRetries', initialDelayMs', maxDelayMs')
        == Ok(AdjustedClone(c, maxRetries', initialDelayMs', maxDelayMs'))
  {
  }

  /** Adjusting back to the original retry settings restores a client that uses the public endpoint. */
  lemma AdjustedCloneRoundTrip(client: TibberClient, maxRetries: u32, initialDelayMs: u64, maxDelayMs: u64)
    requires client.apiUrl == API_URL
    ensures AdjustedClone(AdjustedClone(client, maxRetries, initialDelayMs, maxDelayMs),
                          client.maxRetries, client.initialDelayMs, client.maxDelayMs) == client
  {
  }

  const HOME_SELECTOR_PREFIX: string := "home(id: \""
  const HOME_SELECTOR_SUFFIX: string := "\")"

  /** The GraphQL selector of the home whose prices are queried: the given home, or the list of homes. */
  function HomeSelector(homeId: Option<string>): (r: string)
    ensures r == "homes" <==> homeId.None?
  {
    match homeId
    case Some(id) => HOME_SELECTOR_PREFIX + id + HOME_SELECTOR_SUFFIX
    case None => "homes"
  }

  /** Which home a selector names. */
  function SelectedHome(selector: string): Option<string> {
    if selector == "homes" then None
    else if |selector| >= |HOME_SELECTOR_PREFIX| + |HOME_SELECTOR_SUFFIX|
      && selector[..|HOME_SELECTOR_PREFIX|] == HOME_SELECTOR_PREFIX
      && selector[|selector| - |HOME_SELECTOR_SUFFIX|..] == HOME_SELECTOR_SUFFIX
    then Some(selector[|HOME_SELECTOR_PREFIX|..|selector| - |HOME_SELECTOR_SUFFIX|])
    else None
  }

  /** The selector names exactly the configured home, whatever characters the id holds. */
  lemma HomeSelectorRoundTrip(homeId: Option<string>)
    ensures SelectedHome(HomeSelector(homeId)) == homeId
  {
    if homeId.Some? {
      var id := homeId.value;
      var sel := HomeSelector(homeId);
      assert sel[..|HOME_SELECTOR_PREFIX|] == HOME_SELECTOR_PREFIX;
      assert sel[|sel| - |HOME_SELECTOR_SUFFIX|..] == HOME_SELECTOR_SUFFIX;
      assert sel[|HOME_SELECTOR_PREFIX|..|sel| - |HOME_SELECTOR_SUFFIX|] == id;
    }
  }

  /** Why one query failed, as the error text: a transport error, an HTTP error status or a body
      that does not decode. A decoded response without data, home or subscription makes the
      source panic rather than fail, and is not modelled. */
  type CallError = string

  datatype FetchError = RetriesExhausted(maxRetries: u32, lastCause: CallError)

  /** The delay slept before retry number `n + 1`: the initial delay, then doubled in u64 arithmetic
      and capped at the maximum delay. */
  function DelayAt(initialDelayMs: u64, maxDelayMs: u64, n: nat): (d: u64)
    ensures n == 0 ==> d == initialDelayMs
    ensures n > 0 ==> d <= maxDelayMs
  {
    if n == 0 then initialDelayMs else NextDelay(DelayAt(initialDelayMs, maxDelayMs, n - 1), maxDelayMs)
  }

  /** `(delay * 2).min(max_delay_ms)`, the doubling wrapping around as u64 does. */
  function NextDelay(delay: u64, maxDelayMs: u64): (d: u64)
    ensures d <= maxDelayMs
  {
    var doubled := (delay * 2) % U64_LIMIT;
    if doubled < maxDelayMs then doubled else maxDelayMs
  }

  /** The first `n` delays, in the order they are slept. */
  function BackoffDelays(initialDelayMs: u64, maxDelayMs: u64, n: nat): (ds: seq<u64>)
    ensures |ds| == n
  {
    if n == 0 then [] else BackoffDelays(initialDelayMs, maxDelayMs, n - 1) + [DelayAt(initialDelayMs, maxDelayMs, n - 1)]
  }

  function Pow2(n: nat): nat {
    if n == 0 then 1 else 2 * Pow2(n - 1)
  }

  /** `x` doubled `n` times, without wrap-around. */
  function Doubled(x: nat, n: nat): nat {
    if n == 0 then x else 2 * Doubled(x, n - 1)
  }

  lemma {:induction false} DoubledIsPow2(x: nat, n: nat)
    ensures Doubled(x, n) == x * Pow2(n)
  {
    if n > 0 {
      DoubledIsPow2(x, n - 1);
      assert x * Pow2(n) == 2 * (x * Pow2(n - 1));
    }
  }

  /** Below half the u64 range doubling does not wrap. */
  lemma NextDelayNoWrap(delay: u64, maxDelayMs: u64)
    requires delay < U64_LIMIT / 2
    ensures NextDelay(delay, maxDelayMs) == if 2 * delay < maxDelayMs then 2 * delay else maxDelayMs
  {
  }

  /** Away from u64 overflow the delays follow the closed form: the k-th retry (k >= 1) waits
      `min(initial * 2^k, max)`; only the first delay may exceed the cap. */
  lemma DelayClosedForm(initialDelayMs: u64, maxDelayMs: u64, n: nat)
    requires initialDelayMs < U64_LIMIT / 2 && maxDelayMs < U64_LIMIT / 2
    requires n >= 1
    ensures DelayAt(initialDelayMs, maxDelayMs, n)
         == if initialDelayMs * Pow2(n) < maxDelayMs then initialDelayMs * Pow2(n) else maxDelayMs
  {
    DoubledIsPow2(initialDelayMs, n);
    DelayDoubledForm(initialDelayMs, maxDelayMs, n);
  }

  lemma {:induction false} DelayDoubledForm(initialDelayMs: u64, maxDelayMs: u64, n: nat)
    requires initialDelayMs < U64_LIMIT / 2 && maxDelayMs < U64_LIMIT / 2
    requires n >= 1
    ensures DelayAt(initialDelayMs, maxDelayMs, n)
         == if Doubled(initialDelayMs, n) < maxDelayMs then Doubled(initialDelayMs, n) else maxDelayMs
  {
    var prev := DelayAt(initialDelayMs, maxDelayMs, n - 1);
    if n > 1 {
      DelayDoubledForm(initialDelayMs, maxDelayMs, n - 1);
    }
    NextDelayNoWrap(prev, maxDelayMs);
  }

  /** The first index in `[from, bound)` whose query succeeds. */
  function FirstSuccess(responses: nat -> Result<PriceInfo, CallError>, from: nat, bound: nat): (r: Option<nat>)
    decreases bound - from
    ensures r.Some? ==> (from <= r.value < bound && responses(r.value).Ok?
                         && forall i :: from <= i < r.value ==> responses(i).Err?)
    ensures r.None? ==> forall i :: from <= i < bound ==> responses(i).Err?
  {
    if from >= bound then None
    else if responses(from).Ok? then Some(from)
    else FirstSuccess(responses, from + 1, bound)
  }

  /** What `fetch_price_info` returns when the `i`-th query yields `responses(i)`: the first success
      among the first `max_retries + 1` queries, or the exhaustion error with the last failure. */
  function RetryOutcome(client: TibberClient, responses: nat -> Result<PriceInfo, CallError>): (r: Result<PriceInfo, FetchError>)
    ensures r.Ok? <==> exists i :: 0 <= i <= client.maxRetries && responses(i).Ok?
    ensures r.Ok? ==> exists i :: (0 <= i <= client.maxRetries && responses(i) == Ok(r.value)
                                   && forall j :: 0 <= j < i ==> responses(j).Err?)
    ensures r.Err? ==> (responses(client.maxRetries).Err?
                        && r.error == RetriesExhausted(client.maxRetries, responses(client.maxRetries).error))
  {
    match FirstSuccess(responses, 0, client.maxRetries + 1)
    case Some(i) => Ok(responses(i).value)
    case None => Err(RetriesExhausted(client.maxRetries, responses(client.maxRetries).error))
  }

  /** `fetch_price_info`: query until one succeeds, sleeping between failures with exponential
      back-off; after `max_retries + 1` failed queries give up. The `i`-th query (from 0) yields
      `responses(i)`; `calls` counts the queries and `sleeps` lists the delays slept, in order. */
  method FetchPriceInfo(client: TibberClient, responses: nat -> Result<PriceInfo, CallError>)
    returns (r: Result<PriceInfo, FetchError>, calls: nat, sleeps: seq<u64>)
    ensures r == RetryOutcome(client, responses)
    ensures 1 <= calls <= client.maxRetries + 1
    ensures forall i :: 0 <= i < calls - 1 ==> responses(i).Err?
    ensures r.Ok? <==> responses(calls - 1).Ok?
    ensures r.Ok? ==> r.value == responses(calls - 1).value
    ensures r.Err? ==> (calls == client.maxRetries + 1
                        && r.error == RetriesExhausted(client.maxRetries, responses(calls - 1).error))
    ensures sleeps == BackoffDelays(client.initialDelayMs, client.maxDelayMs, calls - 1)
  {
    var attempt: nat := 0;
    var delay := client.initialDelayMs;
    calls, sleeps := 0, [];
    while true
      invariant attempt <= client.maxRetries
      invariant calls == attempt
      invariant forall i :: 0 <= i < attempt ==> responses(i).Err?
      invariant FirstSuccess(responses, 0, client.maxRetries + 1) == FirstSuccess(responses, attempt, client.maxRetries + 1)
      invariant sleeps == BackoffDelays(client.initialDelayMs, client.maxDelayMs, attempt)
      invariant delay == DelayAt(client.initialDelayMs, client.maxDelayMs, attempt)
      decreases client.maxRetries - attempt
    {
      attempt := attempt + 1;
      var response := responses(attempt - 1);
      calls := calls + 1;
      match response {
        case Ok(info) =>
          return Ok(info), calls, sleeps;
        case Err(e) =>
          if attempt > client.maxRetries {
            return Err(RetriesExhausted(client.maxRetries, e)), calls, sleeps;
          }
      }
      sleeps := sleeps + [delay];
      delay := NextDelay(delay, client.maxDelayMs);
    }
  }

  /** The client of the unit tests: automatic mode, a token, 3 retries, 1 ms initial and 10 ms maximum delay. */
  function TestClient(): (c: TibberClient)
    ensures c.maxRetries == 3 && c.initialDelayMs == 1 && c.maxDelayMs == 10
  {
    TryNew(Auto, Some("test-api-key"), None, 3, 1, 10).value
  }

  /** Two failing queries then a successful one: the success is returned after three queries and
      two sleeps of 1 and 2 ms. */
  method RetryTwoFailuresThenSuccess(info: PriceInfo) returns (r: Result<PriceInfo, FetchError>, calls: nat, sleeps: seq<u64>)
    ensures r == Ok(info) && calls == 3 && sleeps == [1, 2]
  {
    r, calls, sleeps := FetchPriceInfo(TestClient(), i => if i < 2 then Err("Internal Server Error") else Ok(info));
    assert FirstSuccess(i => if i < 2 then Err("Internal Server Error") else Ok(info), 0, 4) == Some(2);
  }

  /** Queries that always fail: four queries (`max_retries + 1`), three sleeps of 1, 2 and 4 ms,
      and an error that reports the configured 3 retries. */
  method RetryAlwaysFailing() returns (r: Result<PriceInfo, FetchError>, calls: nat, sleeps: seq<u64>)
    ensures r == Err(RetriesExhausted(3, "Internal Server Error")) && calls == 4 && sleeps == [1, 2, 4]
  {
    r, calls, sleeps := FetchPriceInfo(TestClient(), i => Err("Internal Server Error"));
  }
}
