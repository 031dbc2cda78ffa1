/**
 The bidding protocol of one auction, step by step.

 One consumer works through the auction's partition, so at most one placeBid is in flight.  Any number of
 endAuction and getAuctionState calls run beside it.  Each await is a point where another step may come
 between.  A step that does not apply leaves the state unchanged.
 */
module Protocol {
  import opened AuctionRows
  import opened Wrappers

  // The User table: usernames never change and every bidder has one.
  type Usernames = UserId -> string

  // What getAuctionState reports and the cache holds for an auction that exists.
  datatype AuctionRoom = AuctionRoom(
    currentHighestBid: int,
    winnerId: Option<UserId>,
    winnerUsername: Option<string>,
    isOpen: bool)

  datatype Winning = Winning(amount: int, userId: Option<UserId>, username: Option<string>)

  datatype Event =
    | NewBid(amount: int, bidderId: UserId, bidderUsername: string)
    | BidRejected(code: ErrorCode, socketId: string)
    | AuctionEnd(winning: Winning)

  /** placeBid: idle, past its read and about to write, written, announced; or past its read and refused. */
  datatype Placing =
    | Idle
    | Accepting(m: Message, isOpen: bool)
    | Committed(m: Message, isOpen: bool)
    | Published(m: Message, isOpen: bool)
    | Rejecting(m: Message, code: ErrorCode)

  /** endAuction: past its check, updated, announced, done; or refused. */
  datatype Closing = Checked | Updated(w: Winning) | Announced(w: Winning) | Succeeded(w: Winning) | AlreadyClosed

  /** getAuctionState: past its cache miss, past its database read, done. */
  datatype Reading = Missed | Loaded(room: AuctionRoom) | Answered(room: AuctionRoom)

  datatype State = State(
    auction: Auction,
    cache: Option<AuctionRoom>,
    events: seq<Event>,
    log: seq<Message>,
    offset: nat,
    placing: Placing,
    closings: seq<Closing>,
    readings: seq<Reading>)

  datatype Step =
    // the gateway appends to the partition
    | Produce(m: Message)
    // placeBid on the message at the offset
    | ReadAuction | CommitBid | PublishBid | CacheBid | PublishRejection
    // the consumer loses what it was doing and resumes at an earlier, or the same, offset
    | Crash(resumeAt: nat)
    // endAuction; the natural number names the call
    | CheckOpen | UpdateClosed(i: nat) | PublishEnd(i: nat) | CacheEnd(i: nat)
    // getAuctionState
    | GetCached | LoadAuction(i: nat) | CacheLoaded(i: nat)
    | ExpireCache

  const INITIAL := State(NEW_AUCTION, None, [], [], 0, Idle, [], [])

  // ----- What each operation writes -----

  function RoomOf(usernames: Usernames, auction: Auction): AuctionRoom {
    AuctionRoom(
      auction.currentHighestBid,
      auction.winnerId,
      if auction.winnerId.Some? then Some(usernames(auction.winnerId.value)) else None,
      auction.isOpen)
  }

  function BidRoom(m: Message, isOpen: bool): AuctionRoom {
    AuctionRoom(m.amount, Some(m.bidderId), Some(m.bidderUsername), isOpen)
  }

  function EndRoom(w: Winning): AuctionRoom {
    AuctionRoom(w.amount, w.userId, w.username, false)
  }

  function BidEvent(m: Message): Event {
    NewBid(m.amount, m.bidderId, m.bidderUsername)
  }

  /** The bid that ordering by amount, descending, puts first. */
  function TopBid(bids: seq<Bid>): Bid
    requires bids != []
  {
    if |bids| == 1 then bids[0]
    else
      var rest := TopBid(bids[..|bids| - 1]);
      var last := bids[|bids| - 1];
      if rest.amount < last.amount then last else rest
  }

  lemma {:induction false} TopBidIsHighest(bids: seq<Bid>)
    requires bids != []
    ensures TopBid(bids) in bids && forall bid | bid in bids :: bid.amount <= TopBid(bids).amount
    decreases |bids|
  {
    if |bids| == 1 {
    } else {
      TopBidIsHighest(bids[..|bids| - 1]);
    }
  }

  function WinningBid(usernames: Usernames, bids: seq<Bid>): Winning {
    if bids == [] then Winning(0, None, None)
    else
      var top := TopBid(bids);
      Winning(top.amount, Some(top.userId), Some(usernames(top.userId)))
  }

  // ----- Steps -----

  function Next(usernames: Usernames, s: State, step: Step): State {
    match step
    case Produce(m) => s.(log := s.log + [m])
    case ReadAuction => if s.placing.Idle? && s.offset < |s.log| then ReadStep(s) else s
    case CommitBid =>
      if s.placing.Accepting? then
        s.(auction := Commit(s.auction, s.placing.m), placing := Committed(s.placing.m, s.placing.isOpen))
      else s
    case PublishBid =>
      if s.placing.Committed? then
        s.(events := s.events + [BidEvent(s.placing.m)], placing := Published(s.placing.m, s.placing.isOpen))
      else s
    case CacheBid =>
      if s.placing.Published? then
        s.(cache := Some(BidRoom(s.placing.m, s.placing.isOpen)), placing := Idle, offset := s.offset + 1)
      else s
    case PublishRejection =>
      if s.placing.Rejecting? then
        s.(events := s.events + RejectionEvents(s.placing.m, s.placing.code), placing := Idle, offset := s.offset + 1)
      else s
    case Crash(resumeAt) => if resumeAt <= s.offset then s.(placing := Idle, offset := resumeAt) else s
    case CheckOpen => s.(closings := s.closings + [if s.auction.isOpen then Checked else AlreadyClosed])
    case UpdateClosed(i) => if i < |s.closings| then UpdateStep(usernames, s, i) else s
    case PublishEnd(i) => if i < |s.closings| then AnnounceStep(s, i) else s
    case CacheEnd(i) => if i < |s.closings| then CacheEndStep(s, i) else s
    case GetCached => s.(readings := s.readings + [if s.cache.Some? then Answered(s.cache.value) else Missed])
    case LoadAuction(i) =>
      if i < |s.readings| && s.readings[i].Missed? then
        s.(readings := s.readings[i := Loaded(RoomOf(usernames, s.auction))])
      else s
    case CacheLoaded(i) =>
      if i < |s.readings| && s.readings[i].Loaded? then
        var room := s.readings[i].room;
        s.(cache := Some(room), readings := s.readings[i := Answered(room)])
      else s
    case ExpireCache => s.(cache := None)
  }

  function ReadStep(s: State): State
    requires s.offset < |s.log|
  {
    var m := s.log[s.offset];
    var refused := Rejection(s.auction, m);
    s.(placing := if refused.Some? then Rejecting(m, refused.value) else Accepting(m, s.auction.isOpen))
  }

  function RejectionEvents(m: Message, code: ErrorCode): seq<Event> {
    if m.socketId != "" then [BidRejected(code, m.socketId)] else []
  }

  function UpdateStep(usernames: Usernames, s: State, i: nat): State
    requires i < |s.closings|
  {
    if s.closings[i].Checked? then
      var w := WinningBid(usernames, s.auction.bids);
      s.(auction := Close(s.auction), closings := s.closings[i := Updated(w)])
    else s
  }

  function AnnounceStep(s: State, i: nat): State
    requires i < |s.closings|
  {
    if s.closings[i].Updated? then
      var w := s.closings[i].w;
      s.(events := s.events + [AuctionEnd(w)], closings := s.closings[i := Announced(w)])
    else s
  }

  function CacheEndStep(s: State, i: nat): State
    requires i < |s.closings|
  {
    if s.closings[i].Announced? then
      var w := s.closings[i].w;
      s.(cache := Some(EndRoom(w)), closings := s.closings[i := Succeeded(w)])
    else s
  }

  function Run(usernames: Usernames, s: State, steps: seq<Step>): State
    decreases |steps|
  {
    if steps == [] then s
    else Next(usernames, Run(usernames, s, steps[..|steps| - 1]), steps[|steps| - 1])
  }

  lemma RunOneMore(usernames: Usernames, s: State, steps: seq<Step>, step: Step)
    ensures Run(usernames, s, steps + [step]) == Next(usernames, Run(usernames, s, steps), step)
  {
    assert (steps + [step])[..|steps|] == steps;
  }

  lemma RunOne(usernames: Usernames, s: State, x: Step)
    ensures Run(usernames, s, [x]) == Next(usernames, s, x)
  {
    hide Next;
    RunOneMore(usernames, s, [], x);
    assert [] + [x] == [x];
  }

  lemma RunTwo(usernames: Usernames, s: State, x: Step, y: Step)
    ensures Run(usernames, s, [x, y]) == Next(usernames, Next(usernames, s, x), y)
  {
    hide Next;
    RunOne(usernames, s, x);
    RunOneMore(usernames, s, [x], y);
    assert [x] + [y] == [x, y];
  }

  lemma RunThree(usernames: Usernames, s: State, x: Step, y: Step, z: Step)
    ensures Run(usernames, s, [x, y, z]) == Next(usernames, Next(usernames, Next(usernames, s, x), y), z)
  {
    hide Next;
    RunTwo(usernames, s, x, y);
    RunOneMore(usernames, s, [x, y], z);
    assert [x, y] + [z] == [x, y, z];
  }

  lemma {:induction false} RunConcat(usernames: Usernames, s: State, before: seq<Step>, after: seq<Step>)
    ensures Run(usernames, s, before + after) == Run(usernames, Run(usernames, s, before), after)
    decreases |after|
  {
    hide Next;
    if after == [] {
      assert before + after == before;
    } else {
      var init := after[..|after| - 1];
      RunConcat(usernames, s, before, init);
      assert before + after == (before + init) + [after[|after| - 1]];
      RunOneMore(usernames, s, before + init, after[|after| - 1]);
    }
  }

  lemma RunSix(usernames: Usernames, s: State, u: Step, v: Step, w: Step, x: Step, y: Step, z: Step)
    ensures Run(usernames, s, [u, v, w, x, y, z])
            == (var t := Next(usernames, Next(usernames, Next(usernames, s, u), v), w);
                Next(usernames, Next(usernames, Next(usernames, t, x), y), z))
  {
    hide Next;
    RunThree(usernames, s, u, v, w);
    RunThree(usernames, Run(usernames, s, [u, v, w]), x, y, z);
    RunConcat(usernames, s, [u, v, w], [x, y, z]);
    assert [u, v, w] + [x, y, z] == [u, v, w, x, y, z];
  }

  // ----- Safety -----

  /** The row is consistent, and a bid past its read still beats the row it will be written to. */
  ghost predicate Safe(s: State) {
    && Consistent(s.auction)
    && (s.placing.Accepting? ==> s.auction.currentHighestBid < s.placing.m.amount && s.placing.isOpen)
    && (s.placing.Committed? || s.placing.Published? ==> s.placing.isOpen)
  }

  lemma NextKeepsSafe(usernames: Usernames, s: State, step: Step)
    requires Safe(s)
    ensures Safe(Next(usernames, s, step))
    ensures !s.auction.isOpen ==> !Next(usernames, s, step).auction.isOpen
    ensures s.auction.bids <= Next(usernames, s, step).auction.bids
    ensures s.auction.currentHighestBid <= Next(usernames, s, step).auction.currentHighestBid
  {
    if step.CommitBid? && s.placing.Accepting? {
      ProcessKeepsConsistent(s.auction.(isOpen := true), s.placing.m);
    } else {
      hide WinningBid, RoomOf;
      var t := Next(usernames, s, step);
      assert t.auction == s.auction || t.auction == Close(s.auction);
      assert t.placing.Accepting? ==> t.placing == s.placing || t.placing == ReadStep(s).placing;
    }
  }

  lemma InitialIsSafe()
    ensures Safe(INITIAL)
  {
  }

  lemma {:induction false} RunKeepsSafe(usernames: Usernames, s: State, steps: seq<Step>)
    requires Safe(s)
    ensures Safe(Run(usernames, s, steps))
    ensures !s.auction.isOpen ==> !Run(usernames, s, steps).auction.isOpen
    ensures s.auction.bids <= Run(usernames, s, steps).auction.bids
    ensures s.auction.currentHighestBid <= Run(usernames, s, steps).auction.currentHighestBid
    decreases |steps|
  {
    if steps == [] {
    } else {
      var init := steps[..|steps| - 1];
      RunKeepsSafe(usernames, s, init);
      NextKeepsSafe(usernames, Run(usernames, s, init), steps[|steps| - 1]);
    }
  }

  /**
   Every interleaving keeps the books: amounts rise in commit order, the summary columns are the maximum
   and the unique top bidder, the version counts the bids, bids are never lost, and a closed auction stays closed.
   */
  lemma FineGrainedSafety(usernames: Usernames, steps: seq<Step>, earlier: nat)
    requires earlier <= |steps|
    ensures var auction, before :=
              Run(usernames, INITIAL, steps).auction, Run(usernames, INITIAL, steps[..earlier]).auction;
            && (forall i, j | 0 <= i < j < |auction.bids| :: auction.bids[i].amount < auction.bids[j].amount)
            && auction.currentHighestBid == MaxAmount(auction.bids)
            && (auction.bids == [] ==> auction.winnerId == None)
            && (auction.bids != [] ==> exists i :: IsUniqueTop(auction.bids, i))
            && (forall i | IsUniqueTop(auction.bids, i) :: auction.winnerId == Some(auction.bids[i].userId))
            && auction.version == 1 + |auction.bids|
            && before.bids <= auction.bids
            && (!before.isOpen ==> !auction.isOpen)
  {
    hide Run, Next;
    InitialIsSafe();
    var before := Run(usernames, INITIAL, steps[..earlier]);
    RunKeepsSafe(usernames, INITIAL, steps[..earlier]);
    RunConcat(usernames, INITIAL, steps[..earlier], steps[earlier..]);
    assert steps[..earlier] + steps[earlier..] == steps;
    RunKeepsSafe(usernames, before, steps[earlier..]);
    ConsistentSummary(Run(usernames, INITIAL, steps).auction);
  }

  /** endAuction's own query for the top bid agrees with the summary columns. */
  lemma {:induction false} WinningBidIsWinner(usernames: Usernames, auction: Auction)
    requires Consistent(auction)
    ensures var w := WinningBid(usernames, auction.bids);
            && w.amount == auction.currentHighestBid
            && w.userId == auction.winnerId
            && w.username == RoomOf(usernames, auction).winnerUsername
  {
    if auction.bids != [] {
      TopBidIsLast(auction.bids);
    }
  }

  lemma {:induction false} TopBidIsLast(bids: seq<Bid>)
    requires bids != [] && forall i, j | 0 <= i < j < |bids| :: bids[i].amount < bids[j].amount
    ensures TopBid(bids) == bids[|bids| - 1]
    decreases |bids|
  {
    if |bids| <= 1 {
    } else {
      TopBidIsLast(bids[..|bids| - 1]);
    }
  }
}
