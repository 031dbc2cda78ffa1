/**
 The operations run to completion, one at a time: what each does to an auction's row, cached state and events.
 Run so, the read-through cache cannot be told from reading the database every time.
 */
module Sequential {
  import opened AuctionRows
  import opened Protocol
  import opened Wrappers

  /** What the operations on one auction share. */
  datatype Shared = Shared(auction: Auction, cache: Option<AuctionRoom>, events: seq<Event>)

  datatype EndResult = Ended(winning: Winning) | NotFound | WasClosed

  function PlaceBid(s: Shared, m: Message): Shared {
    var refused := Rejection(s.auction, m);
    if refused.Some? then s.(events := s.events + RejectionEvents(m, refused.value))
    else Shared(Commit(s.auction, m), Some(BidRoom(m, s.auction.isOpen)), s.events + [BidEvent(m)])
  }

  function EndAuction(usernames: Usernames, s: Shared): (Shared, EndResult) {
    if !s.auction.isOpen then (s, WasClosed)
    else
      var w := WinningBid(usernames, s.auction.bids);
      (Shared(Close(s.auction), Some(EndRoom(w)), s.events + [AuctionEnd(w)]), Ended(w))
  }

  function GetAuctionState(usernames: Usernames, s: Shared): (Shared, AuctionRoom) {
    if s.cache.Some? then (s, s.cache.value)
    else
      var room := RoomOf(usernames, s.auction);
      (s.(cache := Some(room)), room)
  }

  /** The consumer's work on one auction's messages, in order. */
  function PlaceBids(s: Shared, log: seq<Message>): Shared
    decreases |log|
  {
    if log == [] then s else PlaceBid(PlaceBids(s, log[..|log| - 1]), log[|log| - 1])
  }

  lemma PlaceBidsOneMore(s: Shared, log: seq<Message>, n: nat)
    requires n < |log|
    ensures PlaceBids(s, log[..n + 1]) == PlaceBid(PlaceBids(s, log[..n]), log[n])
  {
    assert log[..n + 1][..n] == log[..n];
  }

  /** newBid for a record of the log; for any other message a rejection, as too low, to its socket. */
  ghost function RecordAnswer(start: int, log: seq<Message>, i: int): Event
    requires 0 <= i < |log|
  {
    if IsRecord(start, log, i) then BidEvent(log[i]) else BidRejected(BidTooLow, log[i].socketId)
  }

  ghost function RecordAnswers(start: int, log: seq<Message>): seq<Event> {
    seq(|log|, i requires 0 <= i < |log| => RecordAnswer(start, log, i))
  }

  lemma RecordAnswersOneMore(start: int, log: seq<Message>)
    requires log != []
    ensures RecordAnswers(start, log) == RecordAnswers(start, log[..|log| - 1]) + [RecordAnswer(start, log, |log| - 1)]
  {
    var init := log[..|log| - 1];
    forall i | 0 <= i < |init| ensures IsRecord(start, log, i) <==> IsRecord(start, init, i) {
      assert forall j | 0 <= j <= i :: init[j] == log[j];
    }
  }

  /** Consuming a log on an open auction publishes exactly one answer a message, in order: the records are announced. */
  lemma {:induction false} PlaceBidsAnnouncesRecords(s: Shared, log: seq<Message>)
    requires s.auction.isOpen && forall i | 0 <= i < |log| :: log[i].socketId != ""
    ensures PlaceBids(s, log).auction == Consume(s.auction, log)
    ensures PlaceBids(s, log).events == s.events + RecordAnswers(s.auction.currentHighestBid, log)
    decreases |log|
  {
    if log == [] {
    } else {
      var n := |log| - 1;
      PlaceBidsAnnouncesRecords(s, log[..n]);
      ConsumeReachesPeak(s.auction, log[..n]);
      AcceptedAreRecords(s.auction, log, n);
      RecordAnswersOneMore(s.auction.currentHighestBid, log);
    }
  }

  // ----- They are runs of the protocol's steps -----

  function SharedOf(s: State): Shared {
    Shared(s.auction, s.cache, s.events)
  }

  function WithShared(s: State, shared: Shared): State {
    s.(auction := shared.auction, cache := shared.cache, events := shared.events)
  }

  lemma PlaceBidSteps(usernames: Usernames, s: State) returns (steps: seq<Step>)
    requires s.placing.Idle? && s.offset < |s.log|
    ensures Run(usernames, s, steps)
            == WithShared(s, PlaceBid(SharedOf(s), s.log[s.offset])).(offset := s.offset + 1)
  {
    hide Run;
    if Rejection(s.auction, s.log[s.offset]).Some? {
      steps := [ReadAuction, PublishRejection];
      RunTwo(usernames, s, ReadAuction, PublishRejection);
    } else {
      RunThree(usernames, s, ReadAuction, CommitBid, PublishBid);
      RunOneMore(usernames, s, [ReadAuction, CommitBid, PublishBid], CacheBid);
      steps := [ReadAuction, CommitBid, PublishBid] + [CacheBid];
    }
  }

  /** A call past its check goes through. */
  lemma ClosingSteps(usernames: Usernames, s: State, i: nat)
    requires i < |s.closings| && s.closings[i].Checked?
    ensures var w := WinningBid(usernames, s.auction.bids);
            Run(usernames, s, [UpdateClosed(i), PublishEnd(i), CacheEnd(i)])
            == WithShared(s, Shared(Close(s.auction), Some(EndRoom(w)), s.events + [AuctionEnd(w)]))
                 .(closings := s.closings[i := Succeeded(w)])
  {
    hide Run, WinningBid, EndRoom;
    RunThree(usernames, s, UpdateClosed(i), PublishEnd(i), CacheEnd(i));
    var w := WinningBid(usernames, s.auction.bids);
    var s1 := s.(auction := Close(s.auction), closings := s.closings[i := Updated(w)]);
    var s2 := s1.(events := s.events + [AuctionEnd(w)], closings := s.closings[i := Announced(w)]);
    assert Next(usernames, s, UpdateClosed(i)) == s1;
    assert s1.closings[i := Announced(w)] == s2.closings && Next(usernames, s1, PublishEnd(i)) == s2;
    assert s2.closings[i := Succeeded(w)] == s.closings[i := Succeeded(w)];
  }

  lemma EndAuctionSteps(usernames: Usernames, s: State) returns (steps: seq<Step>)
    ensures var (shared, result) := EndAuction(usernames, SharedOf(s));
            Run(usernames, s, steps)
            == WithShared(s, shared).(closings :=
                 s.closings + [if result.Ended? then Succeeded(result.winning) else AlreadyClosed])
  {
    hide Run, WinningBid;
    RunOne(usernames, s, CheckOpen);
    var checked := Next(usernames, s, CheckOpen);
    if s.auction.isOpen {
      var i := |s.closings|;
      var closing := [UpdateClosed(i), PublishEnd(i), CacheEnd(i)];
      ClosingSteps(usernames, checked, i);
      RunConcat(usernames, s, [CheckOpen], closing);
      steps := [CheckOpen] + closing;
      var w := WinningBid(usernames, s.auction.bids);
      assert checked.closings[i := Succeeded(w)] == s.closings + [Succeeded(w)];
    } else {
      steps := [CheckOpen];
    }
  }

  lemma GetAuctionStateSteps(usernames: Usernames, s: State) returns (steps: seq<Step>)
    ensures var (shared, room) := GetAuctionState(usernames, SharedOf(s));
            Run(usernames, s, steps) == WithShared(s, shared).(readings := s.readings + [Answered(room)])
  {
    hide Run, RoomOf;
    if s.cache.Some? {
      RunOne(usernames, s, GetCached);
      steps := [GetCached];
    } else {
      var i := |s.readings|;
      RunThree(usernames, s, GetCached, LoadAuction(i), CacheLoaded(i));
      steps := [GetCached, LoadAuction(i), CacheLoaded(i)];
      var room := RoomOf(usernames, s.auction);
      assert Run(usernames, s, steps).readings == s.readings + [Answered(room)];
    }
  }

  // ----- Runs of whole operations -----

  datatype Operation = Bid(m: Message) | End | Get | Expire

  function Apply(usernames: Usernames, s: Shared, op: Operation): Shared {
    match op
    case Bid(m) => PlaceBid(s, m)
    case End => EndAuction(usernames, s).0
    case Get => GetAuctionState(usernames, s).0
    case Expire => s.(cache := None)
  }

  const NEW_SHARED := Shared(NEW_AUCTION, None, [])

  function RunOperations(usernames: Usernames, ops: seq<Operation>): Shared
    decreases |ops|
  {
    if ops == [] then NEW_SHARED
    else Apply(usernames, RunOperations(usernames, ops[..|ops| - 1]), ops[|ops| - 1])
  }

  /** Every sequential run is one of the protocol's interleavings, so what holds of those holds of it. */
  lemma {:induction false} SequentialRunIsInterleaving(usernames: Usernames, ops: seq<Operation>)
      returns (steps: seq<Step>)
    ensures var s := Run(usernames, INITIAL, steps);
            SharedOf(s) == RunOperations(usernames, ops) && s.placing.Idle? && s.offset == |s.log|
    decreases |ops|
  {
    if ops == [] {
      steps := [];
    } else {
      var before := SequentialRunIsInterleaving(usernames, ops[..|ops| - 1]);
      var s := Run(usernames, INITIAL, before);
      var after: seq<Step>;
      match ops[|ops| - 1] {
        case Bid(m) =>
          RunOneMore(usernames, s, [], Produce(m));
          var produced := Next(usernames, s, Produce(m));
          var placing := PlaceBidSteps(usernames, produced);
          after := ([] + [Produce(m)]) + placing;
          RunConcat(usernames, s, [] + [Produce(m)], placing);
        case End => after := EndAuctionSteps(usernames, s);
        case Get => after := GetAuctionStateSteps(usernames, s);
        case Expire =>
          after := [] + [ExpireCache];
          RunOneMore(usernames, s, [], ExpireCache);
      }
      RunConcat(usernames, INITIAL, before, after);
      steps := before + after;
    }
  }

  /** The answers getAuctionState gives over a run. */
  function Answers(usernames: Usernames, ops: seq<Operation>): seq<AuctionRoom>
    decreases |ops|
  {
    if ops == [] then []
    else
      var init := ops[..|ops| - 1];
      Answers(usernames, init)
      + if ops[|ops| - 1].Get? then [GetAuctionState(usernames, RunOperations(usernames, init)).1] else []
  }

  /** The same run with no cache: rows alone, each read going to the database for the row and the winner's name. */
  function RowAfter(ops: seq<Operation>): Auction
    decreases |ops|
  {
    if ops == [] then NEW_AUCTION
    else
      var row := RowAfter(ops[..|ops| - 1]);
      match ops[|ops| - 1]
      case Bid(m) => Process(row, m)
      case End => Close(row)
      case _ => row
  }

  function UncachedAnswers(usernames: Usernames, ops: seq<Operation>): seq<AuctionRoom>
    decreases |ops|
  {
    if ops == [] then []
    else
      var init := ops[..|ops| - 1];
      UncachedAnswers(usernames, init)
      + if ops[|ops| - 1].Get? then [RoomOf(usernames, RowAfter(init))] else []
  }

  /** The cache is empty or says what the database would. */
  ghost predicate Coherent(usernames: Usernames, s: Shared) {
    Consistent(s.auction) && (s.cache.Some? ==> s.cache.value == RoomOf(usernames, s.auction))
  }

  /** A bid keeps the cache coherent exactly when it is refused or carries its bidder's own username. */
  lemma PlaceBidKeepsCoherentIff(usernames: Usernames, s: Shared, m: Message)
    requires Coherent(usernames, s)
    ensures Coherent(usernames, PlaceBid(s, m)) <==>
            Rejection(s.auction, m).Some? || m.bidderUsername == usernames(m.bidderId)
  {
    ProcessKeepsConsistent(s.auction, m);
  }

  lemma EndAuctionKeepsCoherent(usernames: Usernames, s: Shared)
    requires Coherent(usernames, s)
    ensures Coherent(usernames, EndAuction(usernames, s).0)
    ensures s.auction.isOpen ==>
              var result := EndAuction(usernames, s).1;
              && result.Ended?
              && result.winning.amount == s.auction.currentHighestBid
              && result.winning.userId == s.auction.winnerId
  {
    WinningBidIsWinner(usernames, s.auction);
  }

  ghost predicate NamesAreRight(usernames: Usernames, ops: seq<Operation>) {
    forall i | 0 <= i < |ops| && ops[i].Bid? :: ops[i].m.bidderUsername == usernames(ops[i].m.bidderId)
  }

  lemma {:induction false} RunKeepsCoherent(usernames: Usernames, ops: seq<Operation>)
    requires NamesAreRight(usernames, ops)
    ensures Coherent(usernames, RunOperations(usernames, ops))
    ensures RunOperations(usernames, ops).auction == RowAfter(ops)
    decreases |ops|
  {
    if ops == [] {
    } else {
      var init := ops[..|ops| - 1];
      var s := RunOperations(usernames, init);
      RunKeepsCoherent(usernames, init);
      match ops[|ops| - 1] {
        case Bid(m) => PlaceBidKeepsCoherentIff(usernames, s, m);
        case End => EndAuctionKeepsCoherent(usernames, s);
        case _ =>
      }
    }
  }

  /** Over every run of bids, closes, reads and expiries, the cached answers are the uncached ones. */
  lemma {:induction false} ReadThroughRefines(usernames: Usernames, ops: seq<Operation>)
    requires NamesAreRight(usernames, ops)
    ensures Answers(usernames, ops) == UncachedAnswers(usernames, ops)
    decreases |ops|
  {
    if ops == [] {
    } else {
      var init := ops[..|ops| - 1];
      ReadThroughRefines(usernames, init);
      RunKeepsCoherent(usernames, init);
    }
  }
}
