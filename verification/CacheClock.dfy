/**
 The cached state under a running clock.  Entries are written with deadlines and read while they live; what the
 protocol has as expiry at any moment is here what the clock does to an entry.
 */
module CacheClock {
  import opened AuctionRows
  import opened Keyspace
  import opened Protocol
  import opened Wrappers
  import Sequential

  /** While it lives an entry says what it said; from its deadline on it is as if the cache had expired. */
  lemma ClockExpiresCache(usernames: Usernames, s: State, ks: Keyspace, key: Key, now: int, later: int)
    requires now <= later && s.cache == RoomAt(ks, now, key)
    ensures var expired := key in ks && ks[key].deadline.Some? && ks[key].deadline.value <= later;
            RoomAt(ks, later, key) == if expired then Next(usernames, s, ExpireCache).cache else s.cache
  {
  }

  /** A room written now is read until one time to live has passed, and not after. */
  lemma RoomLivesOneTtl(ks: Keyspace, now: int, ttl: int, key: Key, room: AuctionRoom, later: int)
    requires now <= later
    ensures RoomAt(SetEx(ks, now, key, Room(room), ttl), later, key) == if later < now + ttl then Some(room) else None
  {
  }

  // ----- Runs under the clock -----

  datatype Operation = Bid(m: Message) | End | Get | Wait(ms: nat)

  datatype Timed = Timed(auction: Auction, ks: Keyspace, now: int)

  /** What an operation writes to the cache, if it does. */
  function Written(usernames: Usernames, s: Timed, key: Key, op: Operation): Option<AuctionRoom> {
    match op
    case Bid(m) =>
      if s.auction.isOpen && s.auction.currentHighestBid < m.amount then
        Some(AuctionRoom(m.amount, Some(m.bidderId), Some(m.bidderUsername), true))
      else None
    case End =>
      if s.auction.isOpen then Some(EndRoom(WinningBid(usernames, s.auction.bids))) else None
    case Get => if RoomAt(s.ks, s.now, key).Some? then None else Some(RoomOf(usernames, s.auction))
    case Wait(_) => None
  }

  function RowBy(row: Auction, op: Operation): Auction {
    match op
    case Bid(m) => Process(row, m)
    case End => Close(row)
    case _ => row
  }

  function Apply(usernames: Usernames, ttl: int, key: Key, s: Timed, op: Operation): Timed {
    var room := Written(usernames, s, key, op);
    var ks := if room.Some? then SetEx(s.ks, s.now, key, Room(room.value), ttl) else s.ks;
    Timed(RowBy(s.auction, op), ks, s.now + if op.Wait? then op.ms else 0)
  }

  function Run(usernames: Usernames, ttl: int, key: Key, now: int, ops: seq<Operation>): Timed
    decreases |ops|
  {
    if ops == [] then Timed(NEW_AUCTION, map[], now)
    else Apply(usernames, ttl, key, Run(usernames, ttl, key, now, ops[..|ops| - 1]), ops[|ops| - 1])
  }

  /** What getAuctionState answers over a run: the live entry, or the row and its winner's name. */
  function Answers(usernames: Usernames, ttl: int, key: Key, now: int, ops: seq<Operation>): seq<AuctionRoom>
    decreases |ops|
  {
    if ops == [] then []
    else
      var init := ops[..|ops| - 1];
      var s := Run(usernames, ttl, key, now, init);
      var cached := RoomAt(s.ks, s.now, key);
      Answers(usernames, ttl, key, now, init)
      + if ops[|ops| - 1].Get? then [if cached.Some? then cached.value else RoomOf(usernames, s.auction)] else []
  }

  /** The same with no cache and no clock: rows alone. */
  function RowAfter(ops: seq<Operation>): Auction
    decreases |ops|
  {
    if ops == [] then NEW_AUCTION else RowBy(RowAfter(ops[..|ops| - 1]), ops[|ops| - 1])
  }

  function UncachedAnswers(usernames: Usernames, ops: seq<Operation>): seq<AuctionRoom>
    decreases |ops|
  {
    if ops == [] then []
    else
      var init := ops[..|ops| - 1];
      UncachedAnswers(usernames, init) + if ops[|ops| - 1].Get? then [RoomOf(usernames, RowAfter(init))] else []
  }

  ghost predicate NamesAreRight(usernames: Usernames, ops: seq<Operation>) {
    forall i | 0 <= i < |ops| && ops[i].Bid? :: ops[i].m.bidderUsername == usernames(ops[i].m.bidderId)
  }

  // ----- The clock's runs are runs with expiry -----

  /** An untimed run with the same row, the same live cache and the same answers. */
  ghost predicate Agrees(
    usernames: Usernames, ttl: int, key: Key, now: int, ops: seq<Operation>, untimed: seq<Sequential.Operation>
  ) {
    var s, shared := Run(usernames, ttl, key, now, ops), Sequential.RunOperations(usernames, untimed);
    && shared.auction == s.auction == RowAfter(ops)
    && shared.cache == RoomAt(s.ks, s.now, key)
    && Sequential.Answers(usernames, untimed) == Answers(usernames, ttl, key, now, ops)
    && (NamesAreRight(usernames, ops) ==> Sequential.NamesAreRight(usernames, untimed))
  }

  /** What the operation is without the clock. */
  function UntimedBy(s: Timed, key: Key, op: Operation): seq<Sequential.Operation> {
    match op
    case Bid(m) => [Sequential.Bid(m)]
    case End => [Sequential.End]
    case Get => [Sequential.Get]
    case Wait(ms) => if RoomAt(s.ks, s.now + ms, key) == RoomAt(s.ks, s.now, key) then [] else [Sequential.Expire]
  }

  lemma StepAgrees(
    usernames: Usernames, ttl: int, key: Key, s: Timed, shared: Sequential.Shared, op: Operation
  )
    requires 0 < ttl && shared.auction == s.auction && shared.cache == RoomAt(s.ks, s.now, key)
    ensures var t, untimed := Apply(usernames, ttl, key, s, op), UntimedBy(s, key, op);
            && |untimed| <= 1
            && var after := if untimed == [] then shared else Sequential.Apply(usernames, shared, untimed[0]);
               after.auction == t.auction && after.cache == RoomAt(t.ks, t.now, key)
  {
    hide WinningBid, RoomOf;
  }

  lemma OneMoreUntimed(usernames: Usernames, ops: seq<Sequential.Operation>, op: Sequential.Operation)
    ensures var before := Sequential.RunOperations(usernames, ops);
            && Sequential.RunOperations(usernames, ops + [op]) == Sequential.Apply(usernames, before, op)
            && Sequential.Answers(usernames, ops + [op])
               == Sequential.Answers(usernames, ops)
                  + if op.Get? then [Sequential.GetAuctionState(usernames, before).1] else []
  {
    assert (ops + [op])[..|ops|] == ops;
  }

  lemma OneMoreTimed(usernames: Usernames, ttl: int, key: Key, now: int, init: seq<Operation>, op: Operation)
    ensures var s, ops := Run(usernames, ttl, key, now, init), init + [op];
            var cached := RoomAt(s.ks, s.now, key);
            && Run(usernames, ttl, key, now, ops) == Apply(usernames, ttl, key, s, op)
            && Apply(usernames, ttl, key, s, op).auction == RowBy(s.auction, op)
            && RowAfter(ops) == RowBy(RowAfter(init), op)
            && Answers(usernames, ttl, key, now, ops)
               == Answers(usernames, ttl, key, now, init)
                  + (if op.Get? then [if cached.Some? then cached.value else RoomOf(usernames, s.auction)] else [])
            && (NamesAreRight(usernames, ops) ==>
                  NamesAreRight(usernames, init) && (op.Bid? ==> op.m.bidderUsername == usernames(op.m.bidderId)))
  {
    var ops := init + [op];
    assert ops[..|init|] == init && ops[|init|] == op;
    assert forall i | 0 <= i < |init| :: ops[i] == init[i];
  }

  lemma NamesOneMore(usernames: Usernames, untimed: seq<Sequential.Operation>, op: Sequential.Operation)
    requires Sequential.NamesAreRight(usernames, untimed)
    requires op.Bid? ==> op.m.bidderUsername == usernames(op.m.bidderId)
    ensures Sequential.NamesAreRight(usernames, untimed + [op])
  {
  }

  lemma AgreesOneMore(
    usernames: Usernames, ttl: int, key: Key, now: int, init: seq<Operation>, op: Operation,
    untimed: seq<Sequential.Operation>
  )
    requires 0 < ttl && Agrees(usernames, ttl, key, now, init, untimed)
    ensures var s := Run(usernames, ttl, key, now, init);
            Agrees(usernames, ttl, key, now, init + [op], untimed + UntimedBy(s, key, op))
  {
    hide Apply, Run, Answers, RowAfter, RoomAt, RoomOf, NamesAreRight, Sequential.Apply, Sequential.RunOperations,
         Sequential.Answers, Sequential.NamesAreRight;
    var s := Run(usernames, ttl, key, now, init);
    var shared, step := Sequential.RunOperations(usernames, untimed), UntimedBy(s, key, op);
    StepAgrees(usernames, ttl, key, s, shared, op);
    OneMoreTimed(usernames, ttl, key, now, init, op);
    if step == [] {
      assert untimed + step == untimed;
    } else {
      assert step == [step[0]];
      OneMoreUntimed(usernames, untimed, step[0]);
      if NamesAreRight(usernames, init + [op]) {
        NamesOneMore(usernames, untimed, step[0]);
      }
    }
  }

  lemma {:induction false} TimedRunIsUntimed(
    usernames: Usernames, ttl: int, key: Key, now: int, ops: seq<Operation>
  ) returns (untimed: seq<Sequential.Operation>)
    requires 0 < ttl
    ensures Agrees(usernames, ttl, key, now, ops, untimed)
    decreases |ops|
  {
    if ops == [] {
      untimed := [];
    } else {
      hide Agrees, Run, UntimedBy;
      var init, last := ops[..|ops| - 1], ops[|ops| - 1];
      var before := TimedRunIsUntimed(usernames, ttl, key, now, init);
      AgreesOneMore(usernames, ttl, key, now, init, last, before);
      untimed := before + UntimedBy(Run(usernames, ttl, key, now, init), key, last);
      assert ops == init + [last];
    }
  }

  /**
   Under a running clock, with entries that live one time to live from each write: over every run of bids, closes,
   reads and pauses, every answer is what an uncached read of the row and its winner's name would give.
   */
  lemma {:induction false} ReadThroughRefinesUnderClock(
    usernames: Usernames, ttl: int, key: Key, now: int, ops: seq<Operation>
  )
    requires 0 < ttl && NamesAreRight(usernames, ops)
    ensures Answers(usernames, ttl, key, now, ops) == UncachedAnswers(usernames, ops)
    decreases |ops|
  {
    if ops == [] {
    } else {
      var init := ops[..|ops| - 1];
      ReadThroughRefinesUnderClock(usernames, ttl, key, now, init);
      var untimed := TimedRunIsUntimed(usernames, ttl, key, now, init);
      hide Apply, RoomOf, WinningBid;
      Sequential.RunKeepsCoherent(usernames, untimed);
    }
  }
}
