/** The throttle when one user's calls overlap: prune, count and add are separate commands of each call. */
module ThrottleRace {
  import opened Counting
  import opened Throttle

  /** A call at time `now`: before its prune, before its count, admitted and about to add; or over, and how. */
  datatype Call = Arrived(now: int) | Pruned(now: int) | Admitted(now: int) | Over(admitted: bool)

  datatype State = State(stamps: set<int>, calls: seq<Call>)

  datatype Step = Arrive(now: int) | Prune(i: nat) | CheckCount(i: nat) | Add(i: nat) | ExpireKey

  const INITIAL := State({}, [])

  predicate InFlight(c: Call) {
    !c.Over?
  }

  predicate IsAdmitted(c: Call) {
    c.Admitted?
  }

  function Next(limits: Limits, s: State, step: Step): State {
    match step
    case Arrive(now) => s.(calls := s.calls + [Arrived(now)])
    case Prune(i) =>
      if i < |s.calls| && s.calls[i].Arrived? then
        var now := s.calls[i].now;
        State((set t | t in s.stamps && !(0 <= t <= now - limits.window)), s.calls[i := Pruned(now)])
      else s
    case CheckCount(i) =>
      if i < |s.calls| && s.calls[i].Pruned? then
        s.(calls := s.calls[i := if |s.stamps| >= limits.maxBids then Over(false) else Admitted(s.calls[i].now)])
      else s
    case Add(i) =>
      if i < |s.calls| && s.calls[i].Admitted? then
        State(s.stamps + {s.calls[i].now}, s.calls[i := Over(true)])
      else s
    case ExpireKey => s.(stamps := {})
  }

  function Run(limits: Limits, steps: seq<Step>): State
    decreases |steps|
  {
    if steps == [] then INITIAL else Next(limits, Run(limits, steps[..|steps| - 1]), steps[|steps| - 1])
  }

  /** At no moment of the run are more than k calls between their arrival and their end. */
  ghost predicate AtMostInFlight(limits: Limits, steps: seq<Step>, k: nat) {
    forall n | 0 <= n <= |steps| :: Count(Run(limits, steps[..n]).calls, InFlight) <= k
  }

  lemma NextKeepsRoom(limits: Limits, s: State, step: Step, k: nat)
    requires Valid(limits)
    requires |s.stamps| + Count(s.calls, IsAdmitted) <= limits.maxBids - 1 + k
    requires Count(Next(limits, s, step).calls, InFlight) <= k
    ensures var t := Next(limits, s, step);
            |t.stamps| + Count(t.calls, IsAdmitted) <= limits.maxBids - 1 + k
  {
    var t := Next(limits, s, step);
    if t != s {
      match step {
        case Arrive(now) => CountAppend(s.calls, Arrived(now), IsAdmitted);
        case Prune(i) =>
          CountUpdate(s.calls, i, t.calls[i], IsAdmitted);
          SubsetIsNoLarger(t.stamps, s.stamps);
        case CheckCount(i) =>
          CountUpdate(s.calls, i, t.calls[i], IsAdmitted);
          CountImplies(t.calls, IsAdmitted, InFlight);
        case Add(i) => CountUpdate(s.calls, i, t.calls[i], IsAdmitted);
        case ExpireKey =>
      }
    }
  }

  lemma {:induction false} RunKeepsRoom(limits: Limits, steps: seq<Step>, k: nat)
    requires Valid(limits) && AtMostInFlight(limits, steps, k)
    ensures var s := Run(limits, steps);
            |s.stamps| + Count(s.calls, IsAdmitted) <= limits.maxBids - 1 + k
    decreases |steps|
  {
    if steps == [] {
    } else {
      var init := steps[..|steps| - 1];
      assert forall n | 0 <= n <= |init| :: init[..n] == steps[..n];
      assert steps[..|steps|] == steps;
      RunKeepsRoom(limits, init, k);
      NextKeepsRoom(limits, Run(limits, init), steps[|steps| - 1], k);
    }
  }

  /** With at most k calls in flight, in any interleaving, the set never exceeds maxBids - 1 + k timestamps. */
  lemma OverlapBound(limits: Limits, steps: seq<Step>, k: nat)
    requires Valid(limits) && AtMostInFlight(limits, steps, k)
    ensures |Run(limits, steps).stamps| <= limits.maxBids - 1 + k
  {
    RunKeepsRoom(limits, steps, k);
  }

  // ----- Calls that do not overlap are the throttle's -----

  /** One call's four steps with nothing between. */
  function WholeCall(limits: Limits, s: State, now: int): State {
    var i := |s.calls|;
    var counted := Next(limits, Next(limits, Next(limits, s, Arrive(now)), Prune(i)), CheckCount(i));
    Next(limits, counted, Add(i))
  }

  /** It prunes, decides and stores as Intercept does. */
  lemma WholeCallIsIntercept(limits: Limits, s: State, b: Bucket, now: int)
    requires s.stamps == LiveStamps(b, now)
    ensures var t := WholeCall(limits, s, now);
            && t.stamps == Intercept(limits, b, now).stamps
            && t.calls == s.calls + [Over(Admits(limits, b, now))]
  {
    var i := |s.calls|;
    var pruned := Next(limits, Next(limits, s, Arrive(now)), Prune(i));
    assert pruned.stamps == Kept(limits, b, now);
    assert pruned.calls == s.calls + [Pruned(now)];
  }

  lemma OneMoreRace(limits: Limits, steps: seq<Step>, step: Step, k: nat)
    requires AtMostInFlight(limits, steps, k)
    requires Count(Next(limits, Run(limits, steps), step).calls, InFlight) <= k
    ensures Run(limits, steps + [step]) == Next(limits, Run(limits, steps), step)
    ensures AtMostInFlight(limits, steps + [step], k)
  {
    hide Next;
    var all := steps + [step];
    assert all[..|steps|] == steps && all[..|all|] == all;
    forall n | 0 <= n <= |all| ensures Count(Run(limits, all[..n]).calls, InFlight) <= k {
      assert n <= |steps| ==> all[..n] == steps[..n];
    }
  }

  /** No call among the first `n` is in flight. */
  ghost predicate OverUpTo(calls: seq<Call>, n: nat) {
    forall i | 0 <= i < n && i < |calls| :: calls[i].Over?
  }

  lemma {:induction false} InFlightAfter(calls: seq<Call>, n: nat)
    requires OverUpTo(calls, n) && n <= |calls|
    ensures Count(calls, InFlight) <= |calls| - n
    decreases |calls|
  {
    if |calls| == n {
      NoneInFlight(calls);
    } else {
      InFlightAfter(calls[..|calls| - 1], n);
    }
  }

  lemma {:induction false} NoneInFlight(calls: seq<Call>)
    requires OverUpTo(calls, |calls|)
    ensures Count(calls, InFlight) == 0
    decreases |calls|
  {
    if calls == [] {
    } else {
      NoneInFlight(calls[..|calls| - 1]);
    }
  }

  /** A step of call `i` leaves the other calls alone and adds at most one, by arriving. */
  lemma StepOnCalls(limits: Limits, s: State, step: Step, n: nat)
    requires OverUpTo(s.calls, n) && n <= |s.calls|
    ensures var t := Next(limits, s, step);
            && OverUpTo(t.calls, n)
            && |t.calls| == |s.calls| + (if step.Arrive? then 1 else 0)
            && Count(t.calls, InFlight) <= |t.calls| - n
  {
    hide Count;
    var t := Next(limits, s, step);
    assert OverUpTo(t.calls, n);
    InFlightAfter(t.calls, n);
  }

  /** A whole call when at most `k` calls can be in flight at its end. */
  lemma EnterCall(limits: Limits, steps: seq<Step>, now: int, over: nat, k: nat) returns (after: seq<Step>)
    requires AtMostInFlight(limits, steps, k)
    requires var s := Run(limits, steps);
             OverUpTo(s.calls, over) && over <= |s.calls| && |s.calls| + 1 - over <= k
    ensures AtMostInFlight(limits, after, k)
    ensures var s := Run(limits, steps);
            var i := |s.calls|;
            Run(limits, after) == Next(limits, Next(limits, Next(limits, s, Arrive(now)), Prune(i)), CheckCount(i))
    ensures OverUpTo(Run(limits, after).calls, over) && |Run(limits, after).calls| == |Run(limits, steps).calls| + 1
  {
    hide Next, AtMostInFlight, OverUpTo;
    var s := Run(limits, steps);
    var i := |s.calls|;
    var s1 := Next(limits, s, Arrive(now));
    var s2 := Next(limits, s1, Prune(i));
    StepOnCalls(limits, s, Arrive(now), over);
    StepOnCalls(limits, s1, Prune(i), over);
    StepOnCalls(limits, s2, CheckCount(i), over);
    OneMoreRace(limits, steps, Arrive(now), k);
    OneMoreRace(limits, steps + [Arrive(now)], Prune(i), k);
    OneMoreRace(limits, steps + [Arrive(now)] + [Prune(i)], CheckCount(i), k);
    after := steps + [Arrive(now)] + [Prune(i)] + [CheckCount(i)];
  }

  /**
   Any sequence of calls of the throttle is a run of this machine with one call in flight, in which the key expires
   when its deadline has passed: the same timestamps are stored, and the same calls admitted.
   */
  lemma {:induction false} CallsAreARace(limits: Limits, times: seq<int>) returns (steps: seq<Step>)
    ensures AtMostInFlight(limits, steps, 1)
    ensures Run(limits, steps).stamps == After(limits, times).stamps
    ensures |Decisions(limits, times)| == |times| == |Run(limits, steps).calls|
    ensures forall i | 0 <= i < |times| :: Run(limits, steps).calls[i] == Over(Decisions(limits, times)[i])
    decreases |times|
  {
    if times == [] {
      steps := [];
    } else {
      hide Next, AtMostInFlight, OverUpTo, Intercept, Run, Kept;
      var init, now := times[..|times| - 1], times[|times| - 1];
      var b := After(limits, init);
      var before := CallsAreARace(limits, init);
      AllOver(Run(limits, before).calls);
      if b.deadline.Some? && b.deadline.value <= now {
        before := ExpireRun(limits, before);
      }
      var s := Run(limits, before);
      WholeCallIsIntercept(limits, s, b, now);
      steps := WholeCallRun(limits, before, now);
    }
  }

  lemma AllOver(calls: seq<Call>)
    requires forall i | 0 <= i < |calls| :: calls[i].Over?
    ensures OverUpTo(calls, |calls|)
  {
  }

  lemma ExpireRun(limits: Limits, steps: seq<Step>) returns (after: seq<Step>)
    requires AtMostInFlight(limits, steps, 1) && OverUpTo(Run(limits, steps).calls, |Run(limits, steps).calls|)
    ensures AtMostInFlight(limits, after, 1) && Run(limits, after) == Run(limits, steps).(stamps := {})
  {
    hide AtMostInFlight, Run;
    NoneInFlight(Run(limits, steps).calls);
    OneMoreRace(limits, steps, ExpireKey, 1);
    after := steps + [ExpireKey];
  }

  lemma WholeCallRun(limits: Limits, steps: seq<Step>, now: int) returns (after: seq<Step>)
    requires AtMostInFlight(limits, steps, 1) && OverUpTo(Run(limits, steps).calls, |Run(limits, steps).calls|)
    ensures AtMostInFlight(limits, after, 1) && Run(limits, after) == WholeCall(limits, Run(limits, steps), now)
  {
    hide Next, AtMostInFlight, OverUpTo, Run;
    var n := |Run(limits, steps).calls|;
    var counted := EnterCall(limits, steps, now, n, 1);
    StepOnCalls(limits, Run(limits, counted), Add(n), n);
    OneMoreRace(limits, counted, Add(n), 1);
    after := counted + [Add(n)];
  }

  // ----- Counting, and how far the bound is reached -----

  /** In any run, a call past its prune is refused at its count exactly when the set then holds maxBids or more. */
  lemma CountDecides(limits: Limits, steps: seq<Step>, i: nat)
    requires i < |Run(limits, steps).calls| && Run(limits, steps).calls[i].Pruned?
    ensures var s, t := Run(limits, steps), Run(limits, steps + [CheckCount(i)]);
            && t.stamps == s.stamps && |t.calls| == |s.calls|
            && (t.calls[i] == Over(false) <==> |s.stamps| >= limits.maxBids)
            && (t.calls[i] == Admitted(s.calls[i].now) <==> |s.stamps| < limits.maxBids)
  {
    assert (steps + [CheckCount(i)])[..|steps|] == steps;
  }

  /** Times so close, or on clocks that run back, that no call prunes an earlier one. */
  function TimeOf(limits: Limits, total: nat, i: int): int {
    if total <= limits.window then i else total - i
  }

  function Times(limits: Limits, total: nat, n: nat): (times: set<int>)
    ensures |times| == n && forall t :: t in times <==> exists i :: 0 <= i < n && t == TimeOf(limits, total, i)
  {
    if n == 0 then {} else Times(limits, total, n - 1) + {TimeOf(limits, total, n - 1)}
  }

  /** `n` calls have come, and are admitted; the first `over` of them have added. */
  ghost predicate IsBurst(limits: Limits, s: State, total: nat, over: nat, n: nat) {
    && over <= n == |s.calls|
    && s.stamps == Times(limits, total, over)
    && (forall i | 0 <= i < over :: s.calls[i] == Over(true))
    && (forall i | over <= i < n :: s.calls[i] == Admitted(TimeOf(limits, total, i)))
  }

  lemma NothingToPrune(limits: Limits, total: nat, over: nat, n: nat)
    requires over <= n < total && 0 < limits.window
    ensures var stamps, now := Times(limits, total, over), TimeOf(limits, total, n);
            (set t | t in stamps && !(0 <= t <= now - limits.window)) == stamps
  {
  }

  /** A call that prunes nothing and finds room. */
  lemma EnterAdmitted(limits: Limits, s: State, now: int)
    requires (set t | t in s.stamps && !(0 <= t <= now - limits.window)) == s.stamps && |s.stamps| < limits.maxBids
    ensures var n := |s.calls|;
            Next(limits, Next(limits, Next(limits, s, Arrive(now)), Prune(n)), CheckCount(n))
            == State(s.stamps, s.calls + [Admitted(now)])
  {
    var n := |s.calls|;
    var pruned := Next(limits, Next(limits, s, Arrive(now)), Prune(n));
    assert pruned == State(s.stamps, s.calls + [Pruned(now)]);
  }

  lemma BurstEnters(limits: Limits, s: State, total: nat, over: nat, n: nat)
    requires IsBurst(limits, s, total, over, n) && over < limits.maxBids && n < total && 0 < limits.window
    ensures var now := TimeOf(limits, total, n);
            var t := Next(limits, Next(limits, Next(limits, s, Arrive(now)), Prune(n)), CheckCount(n));
            IsBurst(limits, t, total, over, n + 1)
  {
    NothingToPrune(limits, total, over, n);
    hide Next, Times, TimeOf;
    EnterAdmitted(limits, s, TimeOf(limits, total, n));
  }

  lemma BurstAdds(limits: Limits, s: State, total: nat, over: nat, n: nat)
    requires IsBurst(limits, s, total, over, n) && over < n
    ensures IsBurst(limits, Next(limits, s, Add(over)), total, over + 1, n)
  {
  }

  lemma BurstIsOver(limits: Limits, s: State, total: nat, over: nat, n: nat)
    requires IsBurst(limits, s, total, over, n)
    ensures OverUpTo(s.calls, over) && over <= |s.calls| == n
  {
  }

  /** One more call of a burst comes in, and waits to add. */
  lemma BurstEnterRun(limits: Limits, steps: seq<Step>, total: nat, over: nat, n: nat, k: nat)
      returns (after: seq<Step>)
    requires AtMostInFlight(limits, steps, k) && IsBurst(limits, Run(limits, steps), total, over, n)
    requires over < limits.maxBids && n < total && 0 < limits.window && n + 1 - over <= k
    ensures AtMostInFlight(limits, after, k) && IsBurst(limits, Run(limits, after), total, over, n + 1)
  {
    hide Next, AtMostInFlight, IsBurst, OverUpTo, Run;
    BurstIsOver(limits, Run(limits, steps), total, over, n);
    after := EnterCall(limits, steps, TimeOf(limits, total, n), over, k);
    BurstEnters(limits, Run(limits, steps), total, over, n);
  }

  lemma BurstAddRun(limits: Limits, steps: seq<Step>, total: nat, over: nat, n: nat, k: nat)
      returns (after: seq<Step>)
    requires AtMostInFlight(limits, steps, k) && IsBurst(limits, Run(limits, steps), total, over, n)
    requires over < n && n - over <= k
    ensures AtMostInFlight(limits, after, k) && IsBurst(limits, Run(limits, after), total, over + 1, n)
  {
    hide Next, AtMostInFlight, IsBurst, OverUpTo, Run;
    var s := Run(limits, steps);
    BurstIsOver(limits, s, total, over, n);
    BurstAdds(limits, s, total, over, n);
    StepOnCalls(limits, s, Add(over), over);
    OneMoreRace(limits, steps, Add(over), k);
    after := steps + [Add(over)];
  }

  lemma NoBurstYet(limits: Limits, total: nat, k: nat)
    ensures AtMostInFlight(limits, [], k) && IsBurst(limits, Run(limits, []), total, 0, 0)
  {
  }

  /** One after another up to the last place; then k together, all counted before any adds. */
  lemma {:induction false} FillUp(limits: Limits, total: nat, n: nat, k: nat) returns (steps: seq<Step>)
    requires Valid(limits) && 0 < k && n < limits.maxBids && n <= total
    ensures AtMostInFlight(limits, steps, k) && IsBurst(limits, Run(limits, steps), total, n, n)
    decreases n
  {
    hide AtMostInFlight, IsBurst, Run;
    if n == 0 {
      steps := [];
      NoBurstYet(limits, total, k);
    } else {
      steps := FillUp(limits, total, n - 1, k);
      steps := BurstEnterRun(limits, steps, total, n - 1, n - 1, k);
      steps := BurstAddRun(limits, steps, total, n - 1, n, k);
    }
  }

  lemma {:induction false} CrowdIn(limits: Limits, total: nat, waiting: nat, k: nat) returns (steps: seq<Step>)
    requires Valid(limits) && 0 < k && waiting <= k && total == limits.maxBids - 1 + k
    ensures AtMostInFlight(limits, steps, k)
    ensures IsBurst(limits, Run(limits, steps), total, limits.maxBids - 1, limits.maxBids - 1 + waiting)
    decreases waiting
  {
    hide AtMostInFlight, IsBurst, Run;
    if waiting == 0 {
      steps := FillUp(limits, total, limits.maxBids - 1, k);
    } else {
      steps := CrowdIn(limits, total, waiting - 1, k);
      steps := BurstEnterRun(limits, steps, total, limits.maxBids - 1, limits.maxBids - 1 + waiting - 1, k);
    }
  }

  lemma {:induction false} AllAdd(limits: Limits, total: nat, added: nat, k: nat) returns (steps: seq<Step>)
    requires Valid(limits) && 0 < k && added <= k && total == limits.maxBids - 1 + k
    ensures AtMostInFlight(limits, steps, k)
    ensures IsBurst(limits, Run(limits, steps), total, limits.maxBids - 1 + added, total)
    decreases added
  {
    hide AtMostInFlight, IsBurst, Run;
    if added == 0 {
      steps := CrowdIn(limits, total, k, k);
    } else {
      steps := AllAdd(limits, total, added - 1, k);
      steps := BurstAddRun(limits, steps, total, limits.maxBids - 1 + added - 1, total, k);
    }
  }

  /** The bound is reached: with k calls in flight some run stores exactly maxBids - 1 + k timestamps. */
  lemma OverlapReachesBound(limits: Limits, k: nat) returns (steps: seq<Step>)
    requires Valid(limits) && 0 < k
    ensures AtMostInFlight(limits, steps, k)
    ensures |Run(limits, steps).stamps| == limits.maxBids - 1 + k
  {
    hide AtMostInFlight, Run;
    steps := AllAdd(limits, limits.maxBids - 1 + k, k, k);
  }
}
