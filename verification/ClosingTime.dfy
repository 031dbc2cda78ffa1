/** What happens to an auction's rows once it is closed, and to the winner that auctionEnd announced. */
module ClosingTime {
  import opened AuctionRows
  import opened Protocol
  import opened Wrappers

  /** `t` is `s` with no further bid, or with the one bid that had been read before the close. */
  ghost predicate AtMostLateBid(s: State, t: State) {
    || (t.auction == s.auction && (t.placing.Accepting? ==> t.placing == s.placing))
    || (s.placing.Accepting? && t.auction == Commit(s.auction, s.placing.m) && !t.placing.Accepting?)
  }

  /** After a close, all that can still change the rows is the bid already past its read, once. */
  lemma {:induction false} AtMostOneLateBid(usernames: Usernames, s: State, steps: seq<Step>)
    requires Safe(s) && !s.auction.isOpen
    ensures AtMostLateBid(s, Run(usernames, s, steps))
    ensures |Run(usernames, s, steps).auction.bids| <= |s.auction.bids| + 1
    decreases |steps|
  {
    if steps == [] {
    } else {
      AtMostOneLateBid(usernames, s, steps[..|steps| - 1]);
    }
  }

  /** A closed auction can still change exactly when a bid is past its read. */
  lemma NoLateBidIff(usernames: Usernames, s: State)
    requires Safe(s) && !s.auction.isOpen
    ensures (forall steps :: Run(usernames, s, steps).auction == s.auction) <==> !s.placing.Accepting?
  {
    if s.placing.Accepting? {
      RunOneMore(usernames, s, [], CommitBid);
      assert |Run(usernames, s, [CommitBid]).auction.bids| == |s.auction.bids| + 1;
    } else {
      forall steps ensures Run(usernames, s, steps).auction == s.auction {
        AtMostOneLateBid(usernames, s, steps);
      }
    }
  }

  // ----- The announced winner -----

  ghost predicate Matches(w: Winning, auction: Auction) {
    w.amount == auction.currentHighestBid && w.userId == auction.winnerId
  }

  /** Every auctionEnd published so far names the row's present winner. */
  ghost predicate AnnouncementsMatch(s: State) {
    forall k | 0 <= k < |s.events| && s.events[k].AuctionEnd? :: Matches(s.events[k].winning, s.auction)
  }

  /** No call has updated an auction that is still open. */
  ghost predicate NoneClosedYet(s: State) {
    && (forall k | 0 <= k < |s.events| :: !s.events[k].AuctionEnd?)
    && (forall k | 0 <= k < |s.closings| :: s.closings[k].Checked? || s.closings[k].AlreadyClosed?)
  }

  lemma {:induction false} OpenMeansNoneClosedYet(usernames: Usernames, steps: seq<Step>)
    ensures Run(usernames, INITIAL, steps).auction.isOpen ==> NoneClosedYet(Run(usernames, INITIAL, steps))
    decreases |steps|
  {
    if steps == [] {
    } else {
      OpenMeansNoneClosedYet(usernames, steps[..|steps| - 1]);
    }
  }

  /** The close has happened, nothing more can be bid, and every winner computed or announced is the row's. */
  ghost predicate Settled(s: State) {
    && Safe(s)
    && !s.auction.isOpen
    && !s.placing.Accepting?
    && AnnouncementsMatch(s)
    && (forall k | 0 <= k < |s.closings| ::
          (s.closings[k].Updated? || s.closings[k].Announced? || s.closings[k].Succeeded?)
          ==> Matches(s.closings[k].w, s.auction))
  }

  lemma NextKeepsSettled(usernames: Usernames, s: State, step: Step)
    requires Settled(s)
    ensures Settled(Next(usernames, s, step))
  {
    WinningBidIsWinner(usernames, s.auction);
  }

  lemma {:induction false} RunKeepsSettled(usernames: Usernames, s: State, steps: seq<Step>)
    requires Settled(s)
    ensures Settled(Run(usernames, s, steps))
    decreases |steps|
  {
    if steps == [] {
    } else {
      RunKeepsSettled(usernames, s, steps[..|steps| - 1]);
      NextKeepsSettled(usernames, Run(usernames, s, steps[..|steps| - 1]), steps[|steps| - 1]);
    }
  }

  /** A bid past its read outlives the announcement of the close and takes the auction from the announced winner. */
  lemma LateBidBeatsAnnouncement(usernames: Usernames, s: State, i: nat)
    requires Safe(s) && s.placing.Accepting?
    requires i < |s.closings| && s.closings[i].Checked?
    ensures var closed := Next(usernames, s, UpdateClosed(i));
            !AnnouncementsMatch(Next(usernames, Next(usernames, closed, PublishEnd(i)), CommitBid))
  {
    WinningBidIsWinner(usernames, s.auction);
    hide Consistent, WinningBid;
    var closed := Next(usernames, s, UpdateClosed(i));
    var late := Next(usernames, Next(usernames, closed, PublishEnd(i)), CommitBid);
    assert late.events[|s.events|] == AuctionEnd(closed.closings[i].w);
    assert !Matches(closed.closings[i].w, late.auction);
  }

  lemma FirstCloseSettles(usernames: Usernames, s: State, i: nat)
    requires Safe(s) && NoneClosedYet(s) && !s.placing.Accepting?
    requires i < |s.closings| && s.closings[i].Checked?
    ensures Settled(Next(usernames, s, UpdateClosed(i)))
  {
    WinningBidIsWinner(usernames, s.auction);
    NextKeepsSafe(usernames, s, UpdateClosed(i));
  }

  ghost predicate AnnouncementsStand(usernames: Usernames, s: State) {
    forall after :: AnnouncementsMatch(Run(usernames, s, after))
  }

  lemma SettledStands(usernames: Usernames, s: State)
    requires Settled(s)
    ensures AnnouncementsStand(usernames, s)
  {
    forall after ensures AnnouncementsMatch(Run(usernames, s, after)) {
      RunKeepsSettled(usernames, s, after);
    }
  }

  lemma LateBidUndoes(usernames: Usernames, s: State, i: nat)
    requires Safe(s) && s.placing.Accepting?
    requires i < |s.closings| && s.closings[i].Checked?
    ensures !AnnouncementsStand(usernames, Next(usernames, s, UpdateClosed(i)))
  {
    LateBidBeatsAnnouncement(usernames, s, i);
    hide Next, AnnouncementsMatch;
    var closed := Next(usernames, s, UpdateClosed(i));
    RunOneMore(usernames, closed, [], PublishEnd(i));
    RunOneMore(usernames, closed, [] + [PublishEnd(i)], CommitBid);
    var after := [] + [PublishEnd(i)] + [CommitBid];
    assert !AnnouncementsMatch(Run(usernames, closed, after));
  }

  /**
   Let call `i` be about to make the first close.  Whatever happens afterwards, every auctionEnd ever
   published names the winner in the database, if and only if no bid is past its read at that moment.
   */
  lemma AnnouncedWinnerStandsIff(usernames: Usernames, before: seq<Step>, i: nat)
    requires var s := Run(usernames, INITIAL, before);
             s.auction.isOpen && i < |s.closings| && s.closings[i].Checked?
    ensures var s := Run(usernames, INITIAL, before);
            AnnouncementsStand(usernames, Next(usernames, s, UpdateClosed(i))) <==> !s.placing.Accepting?
  {
    hide Next, AnnouncementsStand;
    InitialIsSafe();
    RunKeepsSafe(usernames, INITIAL, before);
    OpenMeansNoneClosedYet(usernames, before);
    hide Safe, NoneClosedYet;
    var s := Run(usernames, INITIAL, before);
    var closed := Next(usernames, s, UpdateClosed(i));
    if s.placing.Accepting? {
      LateBidUndoes(usernames, s, i);
    } else {
      FirstCloseSettles(usernames, s, i);
      SettledStands(usernames, closed);
    }
  }

  /**
   endAuction checks and updates in two steps, so a second call succeeds exactly when it too had
   passed its check before the first one's update.
   */
  lemma SecondCloseSucceedsIff(usernames: Usernames, s: State, i: nat)
    requires Safe(s) && !s.auction.isOpen
    requires i < |s.closings| && (s.closings[i].Checked? || s.closings[i].AlreadyClosed?)
    ensures (exists steps :: CallSucceeds(Run(usernames, s, steps), i)) <==> s.closings[i].Checked?
  {
    if s.closings[i].Checked? {
      var steps := [UpdateClosed(i), PublishEnd(i), CacheEnd(i)];
      RunThree(usernames, s, steps[0], steps[1], steps[2]);
      CheckedCallGoesThrough(usernames, s, i);
      hide Next, Run;
      assert CallSucceeds(Run(usernames, s, steps), i);
    } else {
      forall steps ensures !CallSucceeds(Run(usernames, s, steps), i) {
        RefusedStaysRefused(usernames, s, i, steps);
      }
    }
  }

  lemma CheckedCallGoesThrough(usernames: Usernames, s: State, i: nat)
    requires i < |s.closings| && s.closings[i].Checked?
    ensures var updated := Next(usernames, s, UpdateClosed(i));
            CallSucceeds(Next(usernames, Next(usernames, updated, PublishEnd(i)), CacheEnd(i)), i)
  {
    hide WinningBid;
  }

  predicate CallSucceeds(s: State, i: nat) {
    i < |s.closings| && s.closings[i].Succeeded?
  }

  lemma {:induction false} RefusedStaysRefused(usernames: Usernames, s: State, i: nat, steps: seq<Step>)
    requires i < |s.closings| && s.closings[i].AlreadyClosed?
    ensures var t := Run(usernames, s, steps); i < |t.closings| && t.closings[i].AlreadyClosed?
    decreases |steps|
  {
    if steps == [] {
    } else {
      RefusedStaysRefused(usernames, s, i, steps[..|steps| - 1]);
    }
  }

  // ----- These things happen -----

  /**
   A bid is read, the auction is closed and announced as ending without one, and then the bid is written.
   Before the close the run meets what AnnouncedWinnerStandsIff asks for; after it, what NoLateBidIff does.
   */
  lemma LateBidHappens(usernames: Usernames, m: Message)
    requires 0 < m.amount
    ensures var s := Run(usernames, INITIAL, [Produce(m), ReadAuction, CheckOpen]);
            && s.auction.isOpen && s.closings == [Checked] && s.placing.Accepting?
            && !AnnouncementsStand(usernames, Next(usernames, s, UpdateClosed(0)))
    ensures var t := Run(usernames, INITIAL,
                         [Produce(m), ReadAuction, CheckOpen, UpdateClosed(0), PublishEnd(0), CommitBid]);
            && !t.auction.isOpen
            && t.events == [AuctionEnd(Winning(0, None, None))]
            && t.auction.bids == [Bid(m.amount, m.bidderId)] && t.auction.winnerId == Some(m.bidderId)
  {
    var before := [Produce(m), ReadAuction, CheckOpen];
    RunThree(usernames, INITIAL, before[0], before[1], before[2]);
    RunSix(usernames, INITIAL, Produce(m), ReadAuction, CheckOpen, UpdateClosed(0), PublishEnd(0), CommitBid);
    assert Run(usernames, INITIAL, before)
           == INITIAL.(log := [m], placing := Accepting(m, true), closings := [Checked]);
    hide Run, AnnouncementsStand;
    AnnouncedWinnerStandsIff(usernames, before, 0);
  }

  /** Two calls both find the auction open, and both end it. */
  lemma TwoClosesHappen(usernames: Usernames)
    ensures var s := Run(usernames, INITIAL, [CheckOpen, CheckOpen, UpdateClosed(0)]);
            !s.auction.isOpen && |s.closings| == 2 && s.closings[1].Checked?
    ensures var t := Run(usernames, INITIAL, [CheckOpen, CheckOpen, UpdateClosed(0)]
                                             + [PublishEnd(0), CacheEnd(0), UpdateClosed(1)]
                                             + [PublishEnd(1), CacheEnd(1)]);
            && CallSucceeds(t, 0) && CallSucceeds(t, 1)
            && t.events == [AuctionEnd(Winning(0, None, None)), AuctionEnd(Winning(0, None, None))]
  {
    var none := Winning(0, None, None);
    var first := [CheckOpen, CheckOpen, UpdateClosed(0)];
    var second := [PublishEnd(0), CacheEnd(0), UpdateClosed(1)];
    RunThree(usernames, INITIAL, first[0], first[1], first[2]);
    var s := Run(usernames, INITIAL, first);
    assert s == INITIAL.(auction := Close(NEW_AUCTION), closings := [Updated(none), Checked]);
    RunThree(usernames, s, second[0], second[1], second[2]);
    RunConcat(usernames, INITIAL, first, second);
    var t := Run(usernames, INITIAL, first + second);
    assert t == s.(events := [AuctionEnd(none)], cache := Some(EndRoom(none)),
                   closings := [Succeeded(none), Updated(none)]);
    RunTwo(usernames, t, PublishEnd(1), CacheEnd(1));
    RunConcat(usernames, INITIAL, first + second, [PublishEnd(1), CacheEnd(1)]);
  }
}
