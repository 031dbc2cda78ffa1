/** What a cached or answered auction state may say while writers race: old news, but never news ahead of the row. */
module CacheTruth {
  import opened AuctionRows
  import opened Protocol
  import opened Wrappers

  function StateAt(usernames: Usernames, steps: seq<Step>, k: nat): State
    requires k <= |steps|
  {
    Run(usernames, INITIAL, steps[..k])
  }

  ghost predicate RowHeld(s: State, amount: int, winner: Option<UserId>) {
    s.auction.currentHighestBid == amount && s.auction.winnerId == winner
  }

  /** The row held this (highest bid, winner) pair at some moment of the run. */
  ghost predicate HeldInRun(usernames: Usernames, steps: seq<Step>, amount: int, winner: Option<UserId>) {
    exists k: nat :: k <= |steps| && RowHeld(StateAt(usernames, steps, k), amount, winner)
  }

  ghost predicate RoomHeld(usernames: Usernames, steps: seq<Step>, room: AuctionRoom) {
    HeldInRun(usernames, steps, room.currentHighestBid, room.winnerId)
  }

  lemma HeldNow(usernames: Usernames, steps: seq<Step>)
    ensures var row := Run(usernames, INITIAL, steps).auction;
            HeldInRun(usernames, steps, row.currentHighestBid, row.winnerId)
  {
    var row := Run(usernames, INITIAL, steps).auction;
    assert steps[..|steps|] == steps;
    assert RowHeld(StateAt(usernames, steps, |steps|), row.currentHighestBid, row.winnerId);
  }

  lemma HeldStays(usernames: Usernames, steps: seq<Step>, step: Step, amount: int, winner: Option<UserId>)
    requires HeldInRun(usernames, steps, amount, winner)
    ensures HeldInRun(usernames, steps + [step], amount, winner)
  {
    var k: nat :| k <= |steps| && RowHeld(StateAt(usernames, steps, k), amount, winner);
    assert (steps + [step])[..k] == steps[..k];
    assert RowHeld(StateAt(usernames, steps + [step], k), amount, winner);
  }

  type Pair = (int, Option<UserId>)

  ghost function PairsHeld(usernames: Usernames, steps: seq<Step>): iset<Pair> {
    iset pair: Pair | HeldInRun(usernames, steps, pair.0, pair.1)
  }

  function PairOf(auction: Auction): Pair {
    (auction.currentHighestBid, auction.winnerId)
  }

  /** Every pair in flight, cached or answered is one of `held`. */
  ghost predicate AllFrom(held: iset<Pair>, s: State) {
    && (s.cache.Some? ==> (s.cache.value.currentHighestBid, s.cache.value.winnerId) in held)
    && (s.placing.Committed? || s.placing.Published? ==> (s.placing.m.amount, Some(s.placing.m.bidderId)) in held)
    && (forall i | 0 <= i < |s.closings| && (s.closings[i].Updated? || s.closings[i].Announced?) ::
          (s.closings[i].w.amount, s.closings[i].w.userId) in held)
    && (forall i | 0 <= i < |s.readings| && !s.readings[i].Missed? ::
          (s.readings[i].room.currentHighestBid, s.readings[i].room.winnerId) in held)
  }

  lemma NextKeepsAllFrom(usernames: Usernames, s: State, step: Step, held: iset<Pair>)
    requires Safe(s) && AllFrom(held, s)
    requires PairOf(s.auction) in held && PairOf(Next(usernames, s, step).auction) in held
    ensures AllFrom(held, Next(usernames, s, step))
  {
    WinningBidIsWinner(usernames, s.auction);
  }

  lemma HeldGrows(usernames: Usernames, steps: seq<Step>, step: Step)
    ensures PairsHeld(usernames, steps) <= PairsHeld(usernames, steps + [step])
  {
    forall pair: Pair | HeldInRun(usernames, steps, pair.0, pair.1)
      ensures HeldInRun(usernames, steps + [step], pair.0, pair.1)
    {
      HeldStays(usernames, steps, step, pair.0, pair.1);
    }
  }

  lemma {:induction false} RunKeepsAllHeld(usernames: Usernames, steps: seq<Step>)
    ensures AllFrom(PairsHeld(usernames, steps), Run(usernames, INITIAL, steps))
    decreases |steps|
  {
    if steps == [] {
    } else {
      var init, last := steps[..|steps| - 1], steps[|steps| - 1];
      var s := Run(usernames, INITIAL, init);
      assert init + [last] == steps;
      RunKeepsAllHeld(usernames, init);
      HeldNow(usernames, init);
      HeldNow(usernames, steps);
      HeldGrows(usernames, init, last);
      RunKeepsSafe(usernames, INITIAL, init);
      NextKeepsAllFrom(usernames, s, last, PairsHeld(usernames, steps));
    }
  }

  lemma HeldNeverAhead(usernames: Usernames, steps: seq<Step>, amount: int, winner: Option<UserId>)
    requires HeldInRun(usernames, steps, amount, winner)
    ensures amount <= Run(usernames, INITIAL, steps).auction.currentHighestBid
  {
    hide Run, Next;
    InitialIsSafe();
    var k: nat :| k <= |steps| && RowHeld(StateAt(usernames, steps, k), amount, winner);
    RunKeepsSafe(usernames, INITIAL, steps[..k]);
    RunConcat(usernames, INITIAL, steps[..k], steps[k..]);
    assert steps[..k] + steps[k..] == steps;
    RunKeepsSafe(usernames, StateAt(usernames, steps, k), steps[k..]);
  }

  /**
   Under every interleaving, with stale fills and expiry: the cached pair, and every pair that
   getAuctionState answers, was the row's own pair at some moment, and its amount is never above the row's.
   */
  lemma CacheNeverAhead(usernames: Usernames, steps: seq<Step>)
    ensures var s := Run(usernames, INITIAL, steps);
            && (s.cache.Some? ==>
                  && RoomHeld(usernames, steps, s.cache.value)
                  && s.cache.value.currentHighestBid <= s.auction.currentHighestBid)
            && (forall i | 0 <= i < |s.readings| && s.readings[i].Answered? ::
                  && RoomHeld(usernames, steps, s.readings[i].room)
                  && s.readings[i].room.currentHighestBid <= s.auction.currentHighestBid)
  {
    var s := Run(usernames, INITIAL, steps);
    RunKeepsAllHeld(usernames, steps);
    if s.cache.Some? {
      HeldNeverAhead(usernames, steps, s.cache.value.currentHighestBid, s.cache.value.winnerId);
    }
    forall i | 0 <= i < |s.readings| && s.readings[i].Answered?
      ensures s.readings[i].room.currentHighestBid <= s.auction.currentHighestBid
    {
      HeldNeverAhead(usernames, steps, s.readings[i].room.currentHighestBid, s.readings[i].room.winnerId);
    }
  }

  // ----- The cached isOpen flag -----

  /** Nothing says closed before the row is closed. */
  ghost predicate ClosedOnlyWhenClosed(s: State) {
    && (s.cache.Some? && !s.cache.value.isOpen ==> !s.auction.isOpen)
    && (forall i | 0 <= i < |s.closings| && (s.closings[i].Updated? || s.closings[i].Announced?) :: !s.auction.isOpen)
    && (forall i | 0 <= i < |s.readings| && !s.readings[i].Missed? && !s.readings[i].room.isOpen :: !s.auction.isOpen)
  }

  lemma NextKeepsClosedOnlyWhenClosed(usernames: Usernames, s: State, step: Step)
    requires ClosedOnlyWhenClosed(s) && Safe(s)
    ensures ClosedOnlyWhenClosed(Next(usernames, s, step))
  {
    hide Consistent, WinningBid;
    var t := Next(usernames, s, step);
    if step.UpdateClosed? || step.PublishEnd? || step.CacheEnd? {
      assert t.readings == s.readings;
    } else {
      assert t.closings == s.closings || t.closings[..|s.closings|] == s.closings;
    }
  }

  lemma {:induction false} NeverClosedEarly(usernames: Usernames, steps: seq<Step>)
    ensures ClosedOnlyWhenClosed(Run(usernames, INITIAL, steps))
    decreases |steps|
  {
    hide Next;
    if steps == [] {
    } else {
      var init := steps[..|steps| - 1];
      NeverClosedEarly(usernames, init);
      InitialIsSafe();
      RunKeepsSafe(usernames, INITIAL, init);
      hide ClosedOnlyWhenClosed;
      NextKeepsClosedOnlyWhenClosed(usernames, Run(usernames, INITIAL, init), steps[|steps| - 1]);
    }
  }

  predicate SaysOpen(s: State) {
    s.cache.Some? && s.cache.value.isOpen
  }

  predicate SaysOpenAfter(usernames: Usernames, s: State, steps: seq<Step>) {
    SaysOpen(Run(usernames, s, steps))
  }

  /** Some write that still carries an open flag is in the cache or on its way there. */
  ghost predicate OpenFlagPending(s: State) {
    || SaysOpen(s)
    || s.placing.Accepting? || s.placing.Committed? || s.placing.Published?
    || exists i :: 0 <= i < |s.readings| && s.readings[i].Loaded? && s.readings[i].room.isOpen
  }

  lemma {:induction false} NoOpenFlagStays(usernames: Usernames, s: State, steps: seq<Step>)
    requires Safe(s) && !s.auction.isOpen && !OpenFlagPending(s)
    ensures var t := Run(usernames, s, steps); !t.auction.isOpen && !OpenFlagPending(t)
    decreases |steps|
  {
    hide Next, OpenFlagPending, Safe;
    if steps == [] {
    } else {
      var init := steps[..|steps| - 1];
      NoOpenFlagStays(usernames, s, init);
      NextKeepsNoOpenFlag(usernames, Run(usernames, s, init), steps[|steps| - 1]);
    }
  }

  lemma NextKeepsNoOpenFlag(usernames: Usernames, s: State, step: Step)
    requires !s.auction.isOpen && !OpenFlagPending(s)
    ensures var t := Next(usernames, s, step); !t.auction.isOpen && !OpenFlagPending(t)
  {
  }

  /** The cache of a closed auction can still come to say open exactly when an open flag is pending. */
  lemma StaleOpenIff(usernames: Usernames, s: State)
    requires Safe(s) && !s.auction.isOpen
    ensures (exists steps :: SaysOpenAfter(usernames, s, steps)) <==> OpenFlagPending(s)
  {
    if OpenFlagPending(s) {
      var steps := ReachStaleOpen(usernames, s);
      assert SaysOpenAfter(usernames, s, steps);
    } else {
      forall steps ensures !SaysOpenAfter(usernames, s, steps) {
        NoOpenFlagStays(usernames, s, steps);
      }
    }
  }

  lemma ReachStaleOpen(usernames: Usernames, s: State) returns (steps: seq<Step>)
    requires Safe(s) && OpenFlagPending(s)
    ensures SaysOpenAfter(usernames, s, steps)
  {
    if SaysOpen(s) {
      steps := [];
    } else if s.placing.Accepting? || s.placing.Committed? || s.placing.Published? {
      steps := [CommitBid, PublishBid, CacheBid];
      RunThree(usernames, s, CommitBid, PublishBid, CacheBid);
    } else {
      var i :| 0 <= i < |s.readings| && s.readings[i].Loaded? && s.readings[i].room.isOpen;
      steps := [CacheLoaded(i)];
      RunOneMore(usernames, s, [], CacheLoaded(i));
    }
  }

  /** A read that loaded the open row fills the cache after the close has written it. */
  lemma StaleOpenHappens(usernames: Usernames)
    ensures var s := Run(usernames, INITIAL,
                         [GetCached, LoadAuction(0), CheckOpen, UpdateClosed(0), PublishEnd(0), CacheEnd(0)]);
            && !s.auction.isOpen && s.cache.Some? && !s.cache.value.isOpen && OpenFlagPending(s)
            && SaysOpen(Next(usernames, s, CacheLoaded(0)))
  {
    hide Run, RoomOf, WinningBid, EndRoom;
    RunSix(usernames, INITIAL, GetCached, LoadAuction(0), CheckOpen, UpdateClosed(0), PublishEnd(0), CacheEnd(0));
    var room, w := RoomOf(usernames, NEW_AUCTION), WinningBid(usernames, []);
    var loaded := INITIAL.(readings := [Loaded(room)]);
    assert Next(usernames, Next(usernames, INITIAL, GetCached), LoadAuction(0)) == loaded;
    var updated := loaded.(auction := Close(NEW_AUCTION), closings := [Updated(w)]);
    assert Next(usernames, Next(usernames, loaded, CheckOpen), UpdateClosed(0)) == updated;
    var done := updated.(events := [AuctionEnd(w)], cache := Some(EndRoom(w)), closings := [Succeeded(w)]);
    assert Next(usernames, Next(usernames, updated, PublishEnd(0)), CacheEnd(0)) == done;
    StaleFill(usernames, done, w);
  }

  lemma StaleFill(usernames: Usernames, s: State, w: Winning)
    requires s.readings == [Loaded(RoomOf(usernames, NEW_AUCTION))] && s.cache == Some(EndRoom(w))
    ensures !s.cache.value.isOpen && OpenFlagPending(s) && SaysOpen(Next(usernames, s, CacheLoaded(0)))
  {
    assert s.readings[0].Loaded? && s.readings[0].room.isOpen;
  }
}
