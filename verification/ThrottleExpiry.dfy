/** Exactly when letting the timestamp key expire is harmless to the throttle. */
module ThrottleExpiry {
  import opened Counting
  import opened Throttle
  import opened Wrappers

  /** Keys live a window; or the bound is so high that no window with a gap of one time to live in it can reach it. */
  predicate ExpiryHarmless(limits: Limits) {
    limits.window <= limits.ttl || limits.window - limits.ttl + 1 < limits.maxBids
  }

  // ----- Harmless: what an expired key forgets lies before a gap too wide for a full window -----

  lemma {:induction false} IntervalSize(times: set<int>, after: int, upTo: int)
    requires forall t | t in times :: after < t <= upTo
    ensures |times| <= if after <= upTo then upTo - after else 0
    decreases if after <= upTo then upTo - after else 0
  {
    if after < upTo {
      IntervalSize(times - {upTo}, after, upTo - 1);
    } else {
      assert forall t :: t !in times;
    }
  }

  /** The key expired between some call at or after `t` and the next one, at `resumed`. */
  ghost predicate GapAt(limits: Limits, past: set<int>, t: int, resumed: int) {
    && resumed in past && t + limits.ttl <= resumed
    && forall u | u in past :: u <= resumed - limits.ttl || resumed <= u
  }

  ghost predicate Forgotten(limits: Limits, past: set<int>, t: int) {
    exists resumed :: GapAt(limits, past, t, resumed)
  }

  ghost predicate Tracks(limits: Limits, b: Bucket, past: set<int>, last: int) {
    && b.stamps <= past
    && (forall t | t in past :: 0 <= t <= last)
    && (forall t | t in past :: b.deadline.Some? && t + limits.ttl <= b.deadline.value)
    && (forall t | t in past && last - limits.window < t && t !in b.stamps :: Forgotten(limits, past, t))
  }

  /** A window with a gap in it is short of full. */
  lemma GapKeepsWindowShort(limits: Limits, past: set<int>, t: int, resumed: int, now: int)
    requires Valid(limits) && GapAt(limits, past, t, resumed)
    requires now - limits.window < t && resumed <= now
    ensures |Within(past, now - limits.window, now)| <= limits.window - limits.ttl + 1
  {
    var window := Within(past, now - limits.window, now);
    var early := set u | u in window && u <= resumed - limits.ttl;
    var late := set u | u in window && resumed <= u;
    IntervalSize(early, now - limits.window, resumed - limits.ttl);
    IntervalSize(late, resumed - 1, now);
    assert window == early + late;
  }

  /** Both decide alike: they see the same timestamps, or both see too few. */
  lemma SameDecision(limits: Limits, b: Bucket, past: set<int>, last: int, now: int)
    requires Valid(limits) && limits.ttl < limits.window && limits.window - limits.ttl + 1 < limits.maxBids
    requires Tracks(limits, b, past, last) && last <= now
    ensures Admits(limits, b, now) <==> |Within(past, now - limits.window, now)| < limits.maxBids
    ensures !Admits(limits, b, now) ==> Kept(limits, b, now) == Within(past, now - limits.window, now)
  {
    var kept, window := Kept(limits, b, now), Within(past, now - limits.window, now);
    assert kept <= window;
    SubsetIsNoLarger(kept, window);
    if LiveStamps(b, now) != b.stamps {
      IntervalSize(window, now - limits.window, now - limits.ttl);
    } else if t :| t in window && t !in kept {
      assert Forgotten(limits, past, t);
      var resumed :| GapAt(limits, past, t, resumed);
      GapKeepsWindowShort(limits, past, t, resumed, now);
    } else {
      assert kept == window;
    }
  }

  lemma AdmissionTracks(limits: Limits, b: Bucket, past: set<int>, last: int, now: int)
    requires Valid(limits) && Tracks(limits, b, past, last) && last <= now && 0 <= now
    ensures Tracks(limits, Bucket(Kept(limits, b, now) + {now}, Some(now + limits.ttl)), past + {now}, now)
  {
    var kept := Kept(limits, b, now);
    forall t | t in past + {now} && now - limits.window < t && t !in kept + {now}
      ensures Forgotten(limits, past + {now}, t)
    {
      if t in b.stamps {
        assert GapAt(limits, past + {now}, t, now);
      } else {
        assert Forgotten(limits, past, t);
        var resumed :| GapAt(limits, past, t, resumed);
        assert GapAt(limits, past + {now}, t, resumed);
      }
    }
  }

  /** A refused call has found its key alive, so it forgets only what has left the window. */
  lemma RefusalTracks(limits: Limits, b: Bucket, past: set<int>, last: int, now: int)
    requires Valid(limits) && Tracks(limits, b, past, last) && last <= now && !Admits(limits, b, now)
    ensures Tracks(limits, Bucket(Kept(limits, b, now), b.deadline), past, now)
  {
    assert Kept(limits, b, now) != {};
    forall t | t in past && now - limits.window < t && t !in Kept(limits, b, now)
      ensures Forgotten(limits, past, t)
    {
      assert t !in b.stamps;
    }
  }

  lemma InterceptTracks(limits: Limits, b: Bucket, past: set<int>, last: int, now: int)
    requires Valid(limits) && Tracks(limits, b, past, last) && last <= now && 0 <= now
    ensures Tracks(limits, Intercept(limits, b, now), if Admits(limits, b, now) then past + {now} else past, now)
  {
    hide Tracks, Kept, Admits;
    if Admits(limits, b, now) {
      AdmissionTracks(limits, b, past, last, now);
    } else {
      RefusalTracks(limits, b, past, last, now);
    }
  }

  lemma OneMoreAdmitted(limits: Limits, calls: seq<int>)
    requires calls != []
    ensures var init, now := calls[..|calls| - 1], calls[|calls| - 1];
            && After(limits, calls) == Intercept(limits, After(limits, init), now)
            && Admitted(limits, calls)
               == if Admits(limits, After(limits, init), now) then Admitted(limits, init) + {now}
                  else Admitted(limits, init)
  {
  }

  /** In any configuration, every admitted timestamp that a run has lost within the window lies before a gap. */
  lemma {:induction false} RunTracks(limits: Limits, calls: seq<int>, last: int)
    requires Valid(limits) && ClockRises(calls) && last == if calls == [] then 0 else calls[|calls| - 1]
    ensures Tracks(limits, After(limits, calls), Admitted(limits, calls), last)
    decreases |calls|
  {
    if calls == [] {
      assert After(limits, calls) == EMPTY && Admitted(limits, calls) == {};
    } else {
      hide Tracks, Kept, Intercept, Admits, After, Admitted;
      var init := calls[..|calls| - 1];
      var before := if init == [] then 0 else init[|init| - 1];
      RunTracks(limits, init, before);
      InterceptTracks(limits, After(limits, init), Admitted(limits, init), before, last);
      OneMoreAdmitted(limits, calls);
    }
  }

  lemma HighBoundDecision(limits: Limits, calls: seq<int>)
    requires Valid(limits) && limits.ttl < limits.window && limits.window - limits.ttl + 1 < limits.maxBids
    requires ClockRises(calls) && calls != []
    ensures var init, now := calls[..|calls| - 1], calls[|calls| - 1];
            && ClockRises(init)
            && (Admits(limits, After(limits, init), now)
                <==> |Within(Admitted(limits, init), now - limits.window, now)| < limits.maxBids)
  {
    hide Tracks, Within, Kept, Intercept, Admits, After, Admitted;
    var init := calls[..|calls| - 1];
    var before := if init == [] then 0 else init[|init| - 1];
    RunTracks(limits, init, before);
    SameDecision(limits, After(limits, init), Admitted(limits, init), before, calls[|calls| - 1]);
  }

  lemma {:induction false} HighBoundDecidesAlike(limits: Limits, calls: seq<int>)
    requires Valid(limits) && limits.ttl < limits.window && limits.window - limits.ttl + 1 < limits.maxBids
    requires ClockRises(calls)
    ensures Decisions(limits, calls) == ReferenceDecisions(limits, calls)
    ensures Admitted(limits, calls) == History(limits, calls)
    decreases |calls|
  {
    hide ClockRises, Within, Admits, After;
    if calls == [] {
    } else {
      HighBoundDecision(limits, calls);
      HighBoundDecidesAlike(limits, calls[..|calls| - 1]);
    }
  }

  // ----- Harmful: a burst, a pause of one time to live, and the throttle has forgotten the burst -----

  function UpTo(n: nat): (times: set<int>)
    ensures forall t :: t in times <==> 0 <= t < n
    ensures |times| == n
  {
    if n == 0 then {} else UpTo(n - 1) + {n - 1}
  }

  function Burst(n: nat): seq<int> {
    seq(n, i requires 0 <= i < n => i)
  }

  /** While a burst is within bound and window, each of its calls is admitted by both. */
  lemma BurstGoesOn(limits: Limits, b: Bucket, n: nat)
    requires Valid(limits) && n < limits.maxBids && n < limits.window && b.stamps <= UpTo(n)
    ensures |Within(UpTo(n), n - limits.window, n)| < limits.maxBids
    ensures Admits(limits, b, n) && Kept(limits, b, n) <= UpTo(n)
  {
    SubsetIsNoLarger(Within(UpTo(n), n - limits.window, n), UpTo(n));
    SubsetIsNoLarger(Kept(limits, b, n), UpTo(n));
  }

  lemma BurstGrows(n: nat)
    requires 0 < n
    ensures Burst(n) == Burst(n - 1) + [n - 1]
  {
  }

  lemma NoBurst(limits: Limits)
    ensures History(limits, Burst(0)) == Admitted(limits, Burst(0)) == {} && After(limits, Burst(0)) == EMPTY
  {
    assert Burst(0) == [];
  }

  /** A call that both admit. */
  lemma BothAdmit(limits: Limits, calls: seq<int>, before: seq<int>, now: int)
    requires calls == before + [now]
    requires Admits(limits, After(limits, before), now)
    requires |Within(History(limits, before), now - limits.window, now)| < limits.maxBids
    ensures History(limits, calls) == History(limits, before) + {now}
    ensures Admitted(limits, calls) == Admitted(limits, before) + {now}
    ensures After(limits, calls) == Bucket(Kept(limits, After(limits, before), now) + {now}, Some(now + limits.ttl))
  {
    hide Within, Kept, Admits, After, History, Admitted;
    assert calls[..|calls| - 1] == before && calls[|calls| - 1] == now;
    OneMoreCall(limits, calls);
    OneMoreAdmitted(limits, calls);
  }

  lemma {:induction false} BurstIsAdmitted(limits: Limits, n: nat)
    requires Valid(limits) && n <= limits.maxBids && n <= limits.window
    ensures History(limits, Burst(n)) == Admitted(limits, Burst(n)) == UpTo(n)
    ensures After(limits, Burst(n)).stamps <= UpTo(n)
    ensures After(limits, Burst(n)).deadline == if n == 0 then None else Some(n - 1 + limits.ttl)
    decreases n
  {
    hide Within, Kept, Admits, After, History, Admitted, Burst;
    if n == 0 {
      NoBurst(limits);
    } else {
      BurstIsAdmitted(limits, n - 1);
      BurstGoesOn(limits, After(limits, Burst(n - 1)), n - 1);
      BurstGrows(n);
      BothAdmit(limits, Burst(n), Burst(n - 1), n - 1);
    }
  }

  /** After the burst and the pause the throttle admits; the reference still counts the whole burst. */
  lemma PauseForgets(limits: Limits, n: nat)
    requires Valid(limits) && 0 < n <= limits.maxBids && n <= limits.window - limits.ttl
    ensures var now := n - 1 + limits.ttl;
            && Kept(limits, After(limits, Burst(n)), now) == {}
            && Within(UpTo(n), now - limits.window, now) == UpTo(n)
            && History(limits, Burst(n)) == Admitted(limits, Burst(n)) == UpTo(n)
  {
    BurstIsAdmitted(limits, n);
  }

  lemma LastDecisions(limits: Limits, calls: seq<int>, now: int)
    ensures Decisions(limits, calls + [now]) == Decisions(limits, calls) + [Admits(limits, After(limits, calls), now)]
    ensures ReferenceDecisions(limits, calls + [now])
            == ReferenceDecisions(limits, calls)
               + [|Within(History(limits, calls), now - limits.window, now)| < limits.maxBids]
    ensures After(limits, calls + [now]) == Intercept(limits, After(limits, calls), now)
    ensures History(limits, calls + [now])
            == (var past := History(limits, calls);
                if |Within(past, now - limits.window, now)| < limits.maxBids then past + {now} else past)
    ensures |Decisions(limits, calls + [now])| == |ReferenceDecisions(limits, calls + [now])| == |calls| + 1
  {
    assert (calls + [now])[..|calls|] == calls;
    DecisionCount(limits, calls);
  }

  lemma {:induction false} DecisionCount(limits: Limits, calls: seq<int>)
    ensures |Decisions(limits, calls)| == |ReferenceDecisions(limits, calls)| == |calls|
    decreases |calls|
  {
    if calls == [] {
    } else {
      DecisionCount(limits, calls[..|calls| - 1]);
    }
  }

  lemma AdmitsNothingKept(limits: Limits, b: Bucket, now: int)
    requires Valid(limits) && Kept(limits, b, now) == {}
    ensures Admits(limits, b, now)
  {
  }

  /** A burst of maxBids, if a window less a time to live has room for it, is wholly forgotten. */
  lemma WholeBurstForgotten(limits: Limits, n: nat, now: int)
    requires Valid(limits) && n == limits.maxBids && n <= limits.window - limits.ttl && now == n - 1 + limits.ttl
    ensures Decisions(limits, Burst(n) + [now]) != ReferenceDecisions(limits, Burst(n) + [now])
  {
    hide Within, Kept, Admits, After, History, Decisions, ReferenceDecisions, Burst;
    PauseForgets(limits, n);
    AdmitsNothingKept(limits, After(limits, Burst(n)), now);
    LastDecisions(limits, Burst(n), now);
    var last := |Burst(n)|;
    assert Decisions(limits, Burst(n) + [now])[last] != ReferenceDecisions(limits, Burst(n) + [now])[last];
  }

  /** One short of that, both admit the call after the pause. */
  lemma PauseIsAdmitted(limits: Limits, n: nat, now: int)
    requires Valid(limits) && 0 < n < limits.maxBids && n <= limits.window - limits.ttl && now == n - 1 + limits.ttl
    ensures History(limits, Burst(n) + [now]) == UpTo(n) + {now}
    ensures After(limits, Burst(n) + [now]).stamps == {now}
  {
    hide Within, Kept, Admits, After, History, Burst;
    PauseForgets(limits, n);
    AdmitsNothingKept(limits, After(limits, Burst(n)), now);
    BothAdmit(limits, Burst(n) + [now], Burst(n), now);
  }

  /** That call completes the burst for the reference, but not for the throttle. */
  lemma OnlyLastIsKept(limits: Limits, b: Bucket, n: nat, now: int)
    requires Valid(limits) && 0 < n == limits.window - limits.ttl && limits.maxBids == n + 1
             && now == n - 1 + limits.ttl
    requires b.stamps == {now}
    ensures Admits(limits, b, now)
    ensures |Within(UpTo(n) + {now}, now - limits.window, now)| == limits.maxBids
  {
    assert Kept(limits, b, now) <= {now};
    SubsetIsNoLarger(Kept(limits, b, now), {now});
    assert Within(UpTo(n) + {now}, now - limits.window, now) == UpTo(n) + {now};
    assert now !in UpTo(n);
  }

  lemma NextCallForgotten(limits: Limits, n: nat, now: int)
    requires Valid(limits) && 0 < n == limits.window - limits.ttl && limits.maxBids == n + 1
             && now == n - 1 + limits.ttl
    ensures Decisions(limits, Burst(n) + [now] + [now]) != ReferenceDecisions(limits, Burst(n) + [now] + [now])
  {
    hide Within, Kept, Admits, After, History, Decisions, ReferenceDecisions, Burst;
    var calls := Burst(n) + [now];
    PauseIsAdmitted(limits, n, now);
    OnlyLastIsKept(limits, After(limits, calls), n, now);
    LastDecisions(limits, calls, now);
    var last := |calls|;
    assert Decisions(limits, calls + [now])[last] != ReferenceDecisions(limits, calls + [now])[last];
  }

  lemma ForgettingRun(limits: Limits) returns (calls: seq<int>)
    requires Valid(limits) && !ExpiryHarmless(limits)
    ensures ClockRises(calls) && Decisions(limits, calls) != ReferenceDecisions(limits, calls)
  {
    hide Decisions, ReferenceDecisions;
    var gap := limits.window - limits.ttl;
    if limits.maxBids <= gap {
      var now := limits.maxBids - 1 + limits.ttl;
      WholeBurstForgotten(limits, limits.maxBids, now);
      calls := Burst(limits.maxBids) + [now];
    } else {
      var now := gap - 1 + limits.ttl;
      NextCallForgotten(limits, gap, now);
      calls := Burst(gap) + [now] + [now];
    }
  }

  ghost predicate NeverDiffers(limits: Limits) {
    forall calls | ClockRises(calls) :: Decisions(limits, calls) == ReferenceDecisions(limits, calls)
  }

  /** Key expiry changes no decision of any run exactly when ExpiryHarmless holds of the configuration. */
  lemma ExpiryHarmlessIff(limits: Limits)
    requires Valid(limits)
    ensures NeverDiffers(limits) <==> ExpiryHarmless(limits)
  {
    if ExpiryHarmless(limits) {
      forall calls | ClockRises(calls) ensures Decisions(limits, calls) == ReferenceDecisions(limits, calls) {
        if limits.window <= limits.ttl {
          SlidingWindowRefines(limits, calls);
        } else {
          HighBoundDecidesAlike(limits, calls);
        }
      }
    } else {
      var calls := ForgettingRun(limits);
    }
  }
}
