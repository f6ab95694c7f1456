/*
 * The price list shared between the background worker, which installs freshly fetched lists, and
 * the main thread, which reads the list and waits for a newer one. The mutex and the condition
 * variable are not modelled: each method runs as one atomic step, and the installs that other
 * threads make while `WaitForNewPrices` sleeps are an explicit parameter.
 */
module SharedBuffer {
  import opened Wrappers
  import opened TibberApi
  import opened Pricing

  /** The list `set_new_prices` leaves behind when `held` is installed and `candidate` arrives. */
  function Install(held: PricePoints, candidate: PricePoints): (r: PricePoints)
    ensures r == held || r == candidate
    ensures !HasMoreRecentPrices(held, r) && !HasMoreRecentPrices(candidate, r)
  {
    if HasMoreRecentPrices(candidate, held) then candidate else held
  }

  /** An installed list is replaced only by a strictly more recent one: a list that ends no later
      leaves it in place, even when it differs. */
  lemma InstallKeepsUnlessMoreRecent(held: PricePoints, candidate: PricePoints)
    ensures Install(held, candidate) != held ==> HasMoreRecentPrices(candidate, held)
    ensures !HasMoreRecentPrices(candidate, held) ==> Install(held, candidate) == held
    ensures candidate == [] ==> Install(held, candidate) == held
  {
  }

  /** The list held after the installs `cs`, in order, starting from `held`. */
  function ApplyInstalls(held: PricePoints, cs: seq<PricePoints>): (r: PricePoints)
    decreases |cs|
    ensures r == held || r in cs
  {
    if cs == [] then held else Install(ApplyInstalls(held, cs[..|cs| - 1]), cs[|cs| - 1])
  }

  /** Ending no later than another list is transitive. */
  lemma NotMoreRecentTransitive(a: PricePoints, b: PricePoints, c: PricePoints)
    requires !HasMoreRecentPrices(a, b) && !HasMoreRecentPrices(b, c)
    ensures !HasMoreRecentPrices(a, c)
  {
  }

  /** After any sequence of installs the held list is at least as recent as the starting list and
      as every candidate offered, and it is one of them. */
  lemma {:induction false} ApplyInstallsKeepsMostRecent(held: PricePoints, cs: seq<PricePoints>)
    ensures !HasMoreRecentPrices(held, ApplyInstalls(held, cs))
    ensures forall k :: 0 <= k < |cs| ==> !HasMoreRecentPrices(cs[k], ApplyInstalls(held, cs))
    ensures ApplyInstalls(held, cs) == held || exists k :: 0 <= k < |cs| && ApplyInstalls(held, cs) == cs[k]
    decreases |cs|
  {
    if cs != [] {
      var init := cs[..|cs| - 1];
      var before := ApplyInstalls(held, init);
      var after := ApplyInstalls(held, cs);
      ApplyInstallsKeepsMostRecent(held, init);
      NotMoreRecentTransitive(held, before, after);
      forall k | 0 <= k < |cs|
        ensures !HasMoreRecentPrices(cs[k], after)
      {
        if k < |cs| - 1 {
          assert cs[k] == init[k];
          NotMoreRecentTransitive(cs[k], before, after);
        }
      }
      if after != cs[|cs| - 1] {
        assert after == before;
        if before != held {
          var k :| 0 <= k < |init| && before == init[k];
          assert after == cs[k];
        }
      }
    }
  }

  /** `latest_price_date() > Some(after)`: the held list has a point starting after `after`. */
  function HasNewPricesAfter(held: PricePoints, after: Instant): (r: bool)
    ensures r <==> held != [] && held[|held| - 1].startsAt > after
  {
    OptionBefore(Some(after), LatestPriceDate(held))
  }

  /** New prices after `after` means a non-empty list whose last point starts after `after`; for a
      sorted list, that some point starts after `after`. */
  lemma NewPricesMeaning(held: PricePoints, after: Instant)
    ensures HasNewPricesAfter(held, after) <==> held != [] && held[|held| - 1].startsAt > after
    ensures Sorted(held) ==> (HasNewPricesAfter(held, after) <==> exists i :: 0 <= i < |held| && held[i].startsAt > after)
  {
  }

  /** Once the held list has new prices after `after`, no sequence of installs takes them away. */
  lemma NewPricesStayNew(held: PricePoints, cs: seq<PricePoints>, after: Instant)
    requires HasNewPricesAfter(held, after)
    ensures HasNewPricesAfter(ApplyInstalls(held, cs), after)
  {
    ApplyInstallsKeepsMostRecent(held, cs);
  }

  /** `SharedPricePoints`: the price list behind the mutex. */
  class SharedPricePoints {
    var pricePoints: PricePoints

    /** `new`: holds the initial list. */
    constructor (initial: PricePoints)
      ensures pricePoints == initial
    {
      pricePoints := initial;
    }

    /** `clone_prices`: a copy of the held list. */
    method ClonePrices() returns (p: PricePoints)
      ensures p == pricePoints
    {
      p := pricePoints;
    }

    /** `set_new_prices`: installs `newPrices` and reports true exactly when it ends strictly later
        than the held list; otherwise the held list stays. */
    method SetNewPrices(newPrices: PricePoints) returns (updated: bool)
      modifies this
      ensures updated == HasMoreRecentPrices(newPrices, old(pricePoints))
      ensures pricePoints == Install(old(pricePoints), newPrices)
      ensures updated ==> pricePoints == newPrices
      ensures !updated ==> pricePoints == old(pricePoints)
      ensures !HasMoreRecentPrices(old(pricePoints), pricePoints)
    {
      if HasMoreRecentPrices(newPrices, pricePoints) {
        pricePoints := newPrices;
        updated := true;
      } else {
        updated := false;
      }
    }

    /** `wait_for_new_prices`: true at once when the held list already has a point after `after`;
        otherwise the thread sleeps, `installs` are the `set_new_prices` calls other threads make
        before it wakes (by notification or timeout), and the result is the same check on the list
        then held. */
    method WaitForNewPrices(after: Instant, installs: seq<PricePoints>) returns (hasNew: bool)
      modifies this
      ensures hasNew == HasNewPricesAfter(pricePoints, after)
      ensures HasNewPricesAfter(old(pricePoints), after) ==> hasNew && pricePoints == old(pricePoints)
      ensures !HasNewPricesAfter(old(pricePoints), after) ==> pricePoints == ApplyInstalls(old(pricePoints), installs)
      ensures !HasMoreRecentPrices(old(pricePoints), pricePoints)
    {
      if HasNewPricesAfter(pricePoints, after) {
        return true;
      }
      ApplyInstallsKeepsMostRecent(pricePoints, installs);
      pricePoints := ApplyInstalls(pricePoints, installs);
      hasNew := HasNewPricesAfter(pricePoints, after);
    }
  }

  /** A one-point list starting `hours` hours after `now`, as the unit tests build them. */
  function TestPrices(now: Instant, hours: int): (r: PricePoints)
    ensures |r| == 1 && r[0].startsAt == now + hours * 3_600_000_000_000
  {
    [PricePoint(1.0, now + hours * 3_600_000_000_000)]
  }

  /** The unit test: a list an hour later replaces the held one. */
  method PriceDataUpdate(now: Instant) returns (updated: bool, current: PricePoints)
    ensures updated
    ensures current != [] && current[|current| - 1].startsAt == TestPrices(now, 1)[0].startsAt
  {
    var priceData := new SharedPricePoints(TestPrices(now, 0));
    updated := priceData.SetNewPrices(TestPrices(now, 1));
    current := priceData.ClonePrices();
  }

  /** The unit test: a list an hour earlier leaves the held one in place. */
  method PriceDataNoUpdateWithOlderPrices(now: Instant) returns (updated: bool, current: PricePoints)
    ensures !updated
    ensures current != [] && current[|current| - 1].startsAt == TestPrices(now, 1)[0].startsAt
  {
    var priceData := new SharedPricePoints(TestPrices(now, 1));
    updated := priceData.SetNewPrices(TestPrices(now, 0));
    current := priceData.ClonePrices();
  }
}
