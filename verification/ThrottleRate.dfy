/** How many bids get through the throttle, and exactly when that is bounded. */
module ThrottleRate {
  import opened Counting
  import opened Throttle
  import opened ThrottleExpiry

  /** A window with a pause of one time to live in it has no room for more than maxBids timestamps. */
  predicate ShortGap(limits: Limits) {
    limits.window - limits.ttl < limits.maxBids
  }

  function WindowFrom(limits: Limits, past: set<int>, from: int): set<int> {
    Within(past, from, from + limits.window)
  }

  /** Every window, wherever it is placed, holds at most maxBids timestamps. */
  ghost predicate WindowsBounded(limits: Limits, past: set<int>) {
    forall from :: |WindowFrom(limits, past, from)| <= limits.maxBids
  }

  /** The window that an admission ends is not overfull: the stored set knows all of it, or a gap keeps it short. */
  lemma AdmissionFits(limits: Limits, b: Bucket, past: set<int>, last: int, now: int)
    requires Valid(limits) && ShortGap(limits)
    requires Tracks(limits, b, past, last) && last <= now && 0 <= now && Admits(limits, b, now)
    ensures |Within(past + {now}, now - limits.window, now)| <= limits.maxBids
  {
    AdmissionTracks(limits, b, past, last, now);
    var stored, all := Kept(limits, b, now) + {now}, past + {now};
    var window := Within(all, now - limits.window, now);
    if t :| t in window && t !in stored {
      assert Forgotten(limits, all, t);
      var resumed :| GapAt(limits, all, t, resumed);
      GapKeepsWindowShort(limits, all, t, resumed, now);
    } else {
      SubsetIsNoLarger(window, stored);
    }
  }

  lemma AdmissionKeepsBounded(limits: Limits, past: set<int>, now: int, from: int)
    requires |WindowFrom(limits, past, from)| <= limits.maxBids && forall t | t in past :: t <= now
    requires |Within(past + {now}, now - limits.window, now)| <= limits.maxBids
    ensures |WindowFrom(limits, past + {now}, from)| <= limits.maxBids
  {
    var window := WindowFrom(limits, past + {now}, from);
    if from < now <= from + limits.window {
      SubsetIsNoLarger(window, Within(past + {now}, now - limits.window, now));
    } else {
      assert window == WindowFrom(limits, past, from);
    }
  }

  lemma {:induction false} AdmittedBounded(limits: Limits, calls: seq<int>)
    requires Valid(limits) && ShortGap(limits) && ClockRises(calls)
    ensures WindowsBounded(limits, Admitted(limits, calls))
    decreases |calls|
  {
    if calls == [] {
      assert forall from :: WindowFrom(limits, {}, from) == {};
    } else {
      AdmittedBounded(limits, calls[..|calls| - 1]);
      OneMoreBounded(limits, calls);
    }
  }

  lemma OneMoreBounded(limits: Limits, calls: seq<int>)
    requires Valid(limits) && ShortGap(limits) && ClockRises(calls) && calls != []
    requires WindowsBounded(limits, Admitted(limits, calls[..|calls| - 1]))
    ensures WindowsBounded(limits, Admitted(limits, calls))
  {
    hide Admits, After, Within, WindowFrom, Admitted, ShortGap;
    var init, now := calls[..|calls| - 1], calls[|calls| - 1];
    var before := if init == [] then 0 else init[|init| - 1];
    var past := Admitted(limits, init);
    OneMoreAdmitted(limits, calls);
    if Admits(limits, After(limits, init), now) {
      RunTracks(limits, init, before);
      AdmissionFits(limits, After(limits, init), past, before, now);
      forall from ensures |WindowFrom(limits, past + {now}, from)| <= limits.maxBids {
        AdmissionKeepsBounded(limits, past, now, from);
      }
    }
  }

  lemma OneMoreWindow(limits: Limits, past: set<int>, from: int, middle: int)
    requires WindowsBounded(limits, past) && from <= middle
    ensures |Within(past, from, middle + limits.window)| <= |Within(past, from, middle)| + limits.maxBids
  {
    var early, late := Within(past, from, middle), WindowFrom(limits, past, middle);
    assert Within(past, from, middle + limits.window) <= early + late;
    SubsetIsNoLarger(Within(past, from, middle + limits.window), early + late);
  }

  lemma {:induction false} WindowsInARow(limits: Limits, past: set<int>, from: int, n: nat)
    requires Valid(limits) && WindowsBounded(limits, past)
    ensures |Within(past, from, from + n * limits.window)| <= limits.maxBids * n
    decreases n
  {
    if n == 0 {
      assert Within(past, from, from + n * limits.window) == {};
    } else {
      hide Within, WindowsBounded;
      WindowsInARow(limits, past, from, n - 1);
      assert n * limits.window == (n - 1) * limits.window + limits.window;
      OneMoreWindow(limits, past, from, from + (n - 1) * limits.window);
      assert limits.maxBids * n == limits.maxBids * (n - 1) + limits.maxBids;
    }
  }

  function CeilDiv(a: nat, b: nat): nat
    requires 0 < b
  {
    (a + b - 1) / b
  }

  /** The distinct admitted timestamps in the half-open interval of `length` milliseconds that starts at `from`. */
  function Inside(past: set<int>, from: int, length: nat): set<int> {
    set t | t in past && from <= t < from + length
  }

  /** The interval holds at most maxBids of them for each window begun. */
  ghost predicate RateBounded(limits: Limits, calls: seq<int>, from: int, length: nat)
    requires 0 < limits.window
  {
    |Inside(Admitted(limits, calls), from, length)| <= limits.maxBids * CeilDiv(length, limits.window)
  }

  lemma RateBound(limits: Limits, calls: seq<int>, from: int, length: nat)
    requires Valid(limits) && ShortGap(limits) && ClockRises(calls)
    ensures RateBounded(limits, calls, from, length)
  {
    hide Admitted, ClockRises, WindowsBounded, CeilDiv;
    var past, n := Admitted(limits, calls), CeilDiv(length, limits.window);
    AdmittedBounded(limits, calls);
    WindowsInARow(limits, past, from - 1, n);
    CeilDivCovers(length, limits.window);
    SubsetIsNoLarger(Inside(past, from, length), Within(past, from - 1, from - 1 + n * limits.window));
  }

  lemma CeilDivCovers(a: nat, b: nat)
    requires 0 < b
    ensures a <= CeilDiv(a, b) * b
  {
    var q, r := (a + b - 1) / b, (a + b - 1) % b;
    assert a + b - 1 == b * q + r;
    assert q * b == b * q;
  }

  lemma CeilDivOfItself(b: nat)
    requires 0 < b
    ensures CeilDiv(b, b) == 1
  {
    assert b + b - 1 == b * 1 + (b - 1);
  }

  /** Where a gap leaves room, a burst, a pause of one time to live and one more call fit in one window. */
  lemma BurstOverruns(limits: Limits)
    requires Valid(limits) && !ShortGap(limits)
    ensures var calls := Burst(limits.maxBids) + [limits.maxBids - 1 + limits.ttl];
            ClockRises(calls) && !RateBounded(limits, calls, 0, limits.window)
  {
    hide Kept, Within, Admits, After, Admitted, Burst, ClockRises, CeilDiv;
    var n, now := limits.maxBids, limits.maxBids - 1 + limits.ttl;
    var calls := Burst(n) + [now];
    BurstRises(n, now);
    PauseForgets(limits, n);
    AdmitsNothingKept(limits, After(limits, Burst(n)), now);
    assert calls[..|calls| - 1] == Burst(n) && calls[|calls| - 1] == now;
    OneMoreAdmitted(limits, calls);
    assert Inside(UpTo(n) + {now}, 0, limits.window) == UpTo(n) + {now};
    CeilDivOfItself(limits.window);
  }

  lemma BurstRises(n: nat, now: int)
    requires n <= now + 1 && 0 <= now
    ensures ClockRises(Burst(n) + [now])
  {
  }

  ghost predicate RateAlwaysBounded(limits: Limits)
    requires 0 < limits.window
  {
    forall calls, from: int, length: nat | ClockRises(calls) :: RateBounded(limits, calls, from, length)
  }

  /** In every run every interval is within the rate exactly when the configuration leaves no gap for a burst. */
  lemma RateBoundIff(limits: Limits)
    requires Valid(limits)
    ensures RateAlwaysBounded(limits) <==> ShortGap(limits)
  {
    hide RateBounded, ClockRises;
    if ShortGap(limits) {
      forall calls, from: int, length: nat | ClockRises(calls) ensures RateBounded(limits, calls, from, length) {
        RateBound(limits, calls, from, length);
      }
    } else {
      BurstOverruns(limits);
    }
  }
}
