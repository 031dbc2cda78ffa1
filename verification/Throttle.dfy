/** The bid throttle: a sliding window over a pruned set of timestamps, against one that remembers everything. */
module Throttle {
  import opened Wrappers

  /** MAX_BIDS, and WINDOW_SECONDS and REDIS_TTL in milliseconds: any positive values. */
  datatype Limits = Limits(maxBids: nat, window: nat, ttl: nat)

  predicate Valid(limits: Limits) {
    0 < limits.maxBids && 0 < limits.window && 0 < limits.ttl
  }

  /** A user's stored timestamps and the key's deadline. */
  datatype Bucket = Bucket(stamps: set<int>, deadline: Option<int>)

  const EMPTY := Bucket({}, None)

  function Within(stamps: set<int>, after: int, upTo: int): set<int> {
    set t | t in stamps && after < t <= upTo
  }

  function LiveStamps(b: Bucket, now: int): set<int> {
    if b.deadline.Some? && b.deadline.value <= now then {} else b.stamps
  }

  /** What is left after pruning timestamps from 0 up to the start of the window. */
  function Kept(limits: Limits, b: Bucket, now: int): set<int> {
    set t | t in LiveStamps(b, now) && !(0 <= t <= now - limits.window)
  }

  predicate Admits(limits: Limits, b: Bucket, now: int) {
    |Kept(limits, b, now)| < limits.maxBids
  }

  /** One call: prune, count, and if admitted add the timestamp and renew the key. */
  function Intercept(limits: Limits, b: Bucket, now: int): Bucket {
    if Admits(limits, b, now) then Bucket(Kept(limits, b, now) + {now}, Some(now + limits.ttl))
    else Bucket(Kept(limits, b, now), b.deadline)
  }

  // ----- Runs -----

  // The times of one user's calls.
  ghost predicate ClockRises(calls: seq<int>) {
    && (forall i | 0 <= i < |calls| :: 0 <= calls[i])
    && (forall i, j | 0 <= i < j < |calls| :: calls[i] <= calls[j])
  }

  function After(limits: Limits, calls: seq<int>): Bucket
    decreases |calls|
  {
    if calls == [] then EMPTY else Intercept(limits, After(limits, calls[..|calls| - 1]), calls[|calls| - 1])
  }

  function Decisions(limits: Limits, calls: seq<int>): seq<bool>
    decreases |calls|
  {
    if calls == [] then []
    else
      var init := calls[..|calls| - 1];
      Decisions(limits, init) + [Admits(limits, After(limits, init), calls[|calls| - 1])]
  }

  /** The reference: every admitted timestamp is remembered for good. */
  function History(limits: Limits, calls: seq<int>): set<int>
    decreases |calls|
  {
    if calls == [] then {}
    else
      var past, now := History(limits, calls[..|calls| - 1]), calls[|calls| - 1];
      if |Within(past, now - limits.window, now)| < limits.maxBids then past + {now} else past
  }

  function ReferenceDecisions(limits: Limits, calls: seq<int>): seq<bool>
    decreases |calls|
  {
    if calls == [] then []
    else
      var init, now := calls[..|calls| - 1], calls[|calls| - 1];
      ReferenceDecisions(limits, init)
      + [|Within(History(limits, init), now - limits.window, now)| < limits.maxBids]
  }

  /** The pruned set holds what the history has within a window of the last call, and its key outlives that. */
  ghost predicate Remembers(limits: Limits, b: Bucket, past: set<int>, last: int) {
    && b.stamps <= past
    && (forall t | t in past :: 0 <= t <= last)
    && (forall t | t in past && last - limits.window < t :: t in b.stamps)
    && (forall t | t in past :: b.deadline.Some? && t + limits.ttl <= b.deadline.value)
    && (b.deadline.Some? ==> b.deadline.value - limits.ttl in past)
  }

  lemma KeptIsWindow(limits: Limits, b: Bucket, past: set<int>, last: int, now: int)
    requires Valid(limits) && limits.window <= limits.ttl
    requires Remembers(limits, b, past, last) && last <= now
    ensures Kept(limits, b, now) == Within(past, now - limits.window, now)
  {
  }

  lemma AdmissionRemembers(limits: Limits, b: Bucket, past: set<int>, last: int, now: int)
    requires Valid(limits) && Remembers(limits, b, past, last) && last <= now && 0 <= now
    requires Kept(limits, b, now) == Within(past, now - limits.window, now)
    ensures Remembers(limits, Bucket(Kept(limits, b, now) + {now}, Some(now + limits.ttl)), past + {now}, now)
  {
    hide Kept;
  }

  lemma RefusalRemembers(limits: Limits, b: Bucket, past: set<int>, last: int, now: int)
    requires Valid(limits) && Remembers(limits, b, past, last) && last <= now
    requires Kept(limits, b, now) == Within(past, now - limits.window, now)
    ensures Remembers(limits, Bucket(Kept(limits, b, now), b.deadline), past, now)
  {
    hide Kept;
  }

  lemma InterceptRemembers(limits: Limits, b: Bucket, past: set<int>, last: int, now: int)
    requires Valid(limits) && limits.window <= limits.ttl
    requires Remembers(limits, b, past, last) && last <= now && 0 <= now
    ensures Admits(limits, b, now) <==> |Within(past, now - limits.window, now)| < limits.maxBids
    ensures Remembers(limits, Intercept(limits, b, now), if Admits(limits, b, now) then past + {now} else past, now)
  {
    hide Remembers, Kept, Within;
    KeptIsWindow(limits, b, past, last, now);
    if Admits(limits, b, now) {
      AdmissionRemembers(limits, b, past, last, now);
    } else {
      RefusalRemembers(limits, b, past, last, now);
    }
  }

  lemma OneMoreCall(limits: Limits, calls: seq<int>)
    requires calls != []
    ensures var init, now := calls[..|calls| - 1], calls[|calls| - 1];
            var past := History(limits, init);
            && After(limits, calls) == Intercept(limits, After(limits, init), now)
            && History(limits, calls)
               == if |Within(past, now - limits.window, now)| < limits.maxBids then past + {now} else past
  {
  }

  lemma ClockBefore(calls: seq<int>)
    requires ClockRises(calls) && calls != []
    ensures var init, last := calls[..|calls| - 1], calls[|calls| - 1];
            ClockRises(init) && 0 <= last && (init != [] ==> init[|init| - 1] <= last)
  {
  }

  lemma NothingRemembered(limits: Limits)
    ensures After(limits, []) == EMPTY && History(limits, []) == {} && Remembers(limits, EMPTY, {}, 0)
  {
  }

  lemma {:induction false} RunRemembers(limits: Limits, calls: seq<int>, last: int)
    requires Valid(limits) && limits.window <= limits.ttl && ClockRises(calls)
    requires last == if calls == [] then 0 else calls[|calls| - 1]
    ensures Remembers(limits, After(limits, calls), History(limits, calls), last)
    decreases |calls|
  {
    hide Remembers, Within, Kept, Intercept, Admits, After, History, ClockRises;
    if calls == [] {
      NothingRemembered(limits);
    } else {
      ClockBefore(calls);
      var init := calls[..|calls| - 1];
      var before := if init == [] then 0 else init[|init| - 1];
      RunRemembers(limits, init, before);
      InterceptRemembers(limits, After(limits, init), History(limits, init), before, last);
      OneMoreCall(limits, calls);
    }
  }

  /** What one more call does to the throttle and to the reference alike. */
  lemma OneMoreDecision(limits: Limits, calls: seq<int>)
    requires Valid(limits) && limits.window <= limits.ttl && ClockRises(calls) && calls != []
    ensures var init, now := calls[..|calls| - 1], calls[|calls| - 1];
            var past := History(limits, init);
            && ClockRises(init)
            && (forall t | t in past :: t <= now)
            && (Admits(limits, After(limits, init), now) <==> |Within(past, now - limits.window, now)| < limits.maxBids)
            && History(limits, calls) == if Admits(limits, After(limits, init), now) then past + {now} else past
  {
    hide Intercept, Admits, After, Within, Kept, History;
    var init, now := calls[..|calls| - 1], calls[|calls| - 1];
    var before := if init == [] then 0 else init[|init| - 1];
    RunRemembers(limits, init, before);
    InterceptRemembers(limits, After(limits, init), History(limits, init), before, now);
    OneMoreCall(limits, calls);
  }

  /**
   With a rising clock, pruning and key expiry change no decision as long as keys live at least one window:
   a call is admitted exactly when fewer than maxBids distinct timestamps were admitted within the window before it.
   */
  lemma {:induction false} SlidingWindowRefines(limits: Limits, calls: seq<int>)
    requires Valid(limits) && limits.window <= limits.ttl && ClockRises(calls)
    ensures Decisions(limits, calls) == ReferenceDecisions(limits, calls)
    decreases |calls|
  {
    hide ClockRises, Admits, After, History, Within;
    if calls == [] {
    } else {
      OneMoreDecision(limits, calls);
      SlidingWindowRefines(limits, calls[..|calls| - 1]);
    }
  }

  /** The distinct timestamps the throttle admitted. */
  function Admitted(limits: Limits, calls: seq<int>): set<int>
    decreases |calls|
  {
    if calls == [] then {}
    else
      var init, now := calls[..|calls| - 1], calls[|calls| - 1];
      if Admits(limits, After(limits, init), now) then Admitted(limits, init) + {now} else Admitted(limits, init)
  }
}
