/**
 Bids of different auctions.  The producer puts an auction's messages in the partition of that number, and each
 partition is consumed in its own order; how the partitions are interleaved is anyone's guess.
 */
module Partitions {
  import opened AuctionRows
  import opened Wrappers

  /** The messages of each partition; an unused one is empty. */
  type Log = int -> seq<Message>

  /** Each answered bid: None for accepted, or why it was refused. */
  type Outcome = Option<ErrorCode>

  datatype System = System(
    auctions: map<AuctionId, Auction>,
    offsets: map<int, nat>,
    outcomes: map<AuctionId, seq<Outcome>>)

  /** A partition's next message is consumed, or an auction is ended. */
  datatype Turn = Consume(partition: int) | End(auctionId: AuctionId)

  function OffsetOf(s: System, partition: int): nat {
    if partition in s.offsets then s.offsets[partition] else 0
  }

  function OutcomesOf(s: System, id: AuctionId): seq<Outcome> {
    if id in s.outcomes then s.outcomes[id] else []
  }

  function Handle(s: System, m: Message): System {
    if m.auctionId in s.auctions then
      var row := s.auctions[m.auctionId];
      s.(auctions := s.auctions[m.auctionId := Process(row, m)],
         outcomes := s.outcomes[m.auctionId := OutcomesOf(s, m.auctionId) + [Rejection(row, m)]])
    else
      s.(outcomes := s.outcomes[m.auctionId := OutcomesOf(s, m.auctionId) + [Some(AuctionNotFound)]])
  }

  function Next(log: Log, s: System, turn: Turn): System {
    match turn
    case Consume(partition) =>
      var offset := OffsetOf(s, partition);
      if offset < |log(partition)| then
        Handle(s, log(partition)[offset]).(offsets := s.offsets[partition := offset + 1])
      else s
    case End(id) =>
      if id in s.auctions then s.(auctions := s.auctions[id := Close(s.auctions[id])]) else s
  }

  function Run(log: Log, s: System, turns: seq<Turn>): System
    decreases |turns|
  {
    if turns == [] then s else Next(log, Run(log, s, turns[..|turns| - 1]), turns[|turns| - 1])
  }

  /** Every message lies in the partition its auction numbers. */
  ghost predicate Routed(log: Log) {
    forall p, i | 0 <= i < |log(p)| :: log(p)[i].auctionId == p
  }

  predicate Concerns(turn: Turn, id: AuctionId) {
    match turn
    case Consume(partition) => partition == id
    case End(auctionId) => auctionId == id
  }

  function OnlyFor(turns: seq<Turn>, id: AuctionId): seq<Turn>
    decreases |turns|
  {
    if turns == [] then []
    else
      var last := turns[|turns| - 1];
      OnlyFor(turns[..|turns| - 1], id) + if Concerns(last, id) then [last] else []
  }

  /** What one auction's bidders see: its row, how each of its bids was answered, and how far its partition has come. */
  datatype View = View(auction: Option<Auction>, outcomes: seq<Outcome>, offset: nat)

  function ViewOf(s: System, id: AuctionId): View {
    View(if id in s.auctions then Some(s.auctions[id]) else None, OutcomesOf(s, id), OffsetOf(s, id))
  }

  lemma NextIsLocal(log: Log, s: System, t: System, turn: Turn, id: AuctionId)
    requires Routed(log) && ViewOf(s, id) == ViewOf(t, id)
    ensures Concerns(turn, id) ==> ViewOf(Next(log, s, turn), id) == ViewOf(Next(log, t, turn), id)
    ensures !Concerns(turn, id) ==> ViewOf(Next(log, s, turn), id) == ViewOf(s, id)
  {
  }

  /** An auction's view depends only on the turns that concern it, in their order. */
  lemma {:induction false} ViewIsItsOwnHistory(log: Log, s: System, turns: seq<Turn>, id: AuctionId)
    requires Routed(log)
    ensures ViewOf(Run(log, s, turns), id) == ViewOf(Run(log, s, OnlyFor(turns, id)), id)
    decreases |turns|
  {
    if turns == [] {
    } else {
      var init, last := turns[..|turns| - 1], turns[|turns| - 1];
      var own := OnlyFor(init, id);
      ViewIsItsOwnHistory(log, s, init, id);
      NextIsLocal(log, Run(log, s, init), Run(log, s, own), last, id);
      if Concerns(last, id) {
        assert OnlyFor(turns, id)[..|own|] == own;
      } else {
        assert OnlyFor(turns, id) == own;
      }
    }
  }

  /** Two schedules that agree on each partition's own order agree on every row and every answer. */
  lemma PartitionConfluence(log: Log, s: System, turns1: seq<Turn>, turns2: seq<Turn>)
    requires Routed(log)
    requires forall id :: OnlyFor(turns1, id) == OnlyFor(turns2, id)
    ensures forall id :: ViewOf(Run(log, s, turns1), id) == ViewOf(Run(log, s, turns2), id)
  {
    forall id ensures ViewOf(Run(log, s, turns1), id) == ViewOf(Run(log, s, turns2), id) {
      ViewIsItsOwnHistory(log, s, turns1, id);
      ViewIsItsOwnHistory(log, s, turns2, id);
    }
  }

  /** With no close among them, an auction's turns consume its partition's messages in order. */
  lemma {:induction false} ConsumesInOrder(log: Log, s: System, turns: seq<Turn>, id: AuctionId)
    requires Routed(log) && id in s.auctions && OffsetOf(s, id) == 0
    requires forall i | 0 <= i < |turns| :: turns[i] != End(id)
    ensures var t := Run(log, s, turns);
            && OffsetOf(t, id) <= |log(id)|
            && id in t.auctions
            && t.auctions[id] == AuctionRows.Consume(s.auctions[id], log(id)[..OffsetOf(t, id)])
    decreases |turns|
  {
    if turns == [] {
    } else {
      var init, last := turns[..|turns| - 1], turns[|turns| - 1];
      ConsumesInOrder(log, s, init, id);
      var t := Run(log, s, init);
      if last == Consume(id) && OffsetOf(t, id) < |log(id)| {
        var messages, n := log(id), OffsetOf(t, id);
        assert messages[..n + 1][..n] == messages[..n];
      } else {
        NextIsLocal(log, t, t, last, id);
      }
    }
  }

  // ----- How each bid is answered -----

  /** How message k is answered if the auction is ended after `n` of them. */
  ghost function Expected(row: Option<Auction>, messages: seq<Message>, n: nat, k: int): Outcome
    requires 0 <= k < |messages|
  {
    if row.None? then Some(AuctionNotFound)
    else if !row.value.isOpen || n <= k then Some(AuctionClosed)
    else if IsRecord(row.value.currentHighestBid, messages, k) then None
    else Some(BidTooLow)
  }

  ghost function ExpectedRow(row: Option<Auction>, messages: seq<Message>, n: nat, ended: bool): Option<Auction>
    requires n <= |messages|
  {
    if row.None? || !row.value.isOpen then row
    else
      var open := AuctionRows.Consume(row.value, messages[..n]);
      Some(if ended then open.(isOpen := false) else open)
  }

  /** `v` is `v0` after `count` more messages, the auction being ended, if at all, after `n` of them. */
  ghost predicate Answered(v0: View, messages: seq<Message>, v: View, n: nat, ended: bool, count: nat) {
    && n <= count <= |messages| && (!ended ==> n == count)
    && v.offset == v0.offset + count
    && v.auction == ExpectedRow(v0.auction, messages, n, ended)
    && |v.outcomes| == |v0.outcomes| + count && v.outcomes[..|v0.outcomes|] == v0.outcomes
    && (forall k | 0 <= k < count :: v.outcomes[|v0.outcomes| + k] == Expected(v0.auction, messages, n, k))
    && (v0.auction.Some? ==> |v.auction.value.bids| == |v0.auction.value.bids| + Accepted(v.outcomes, |v0.outcomes|))
  }

  /** How many of the outcomes from `start` on are acceptances. */
  function Accepted(outcomes: seq<Outcome>, start: nat): nat
    requires start <= |outcomes|
    decreases |outcomes|
  {
    if |outcomes| == start then 0
    else Accepted(outcomes[..|outcomes| - 1], start) + if outcomes[|outcomes| - 1].None? then 1 else 0
  }

  /** One more message, handled as Handle does. */
  function Handled(v: View, m: Message): View {
    View(if v.auction.Some? then Some(Process(v.auction.value, m)) else None,
         v.outcomes + [if v.auction.Some? then Rejection(v.auction.value, m) else Some(AuctionNotFound)],
         v.offset + 1)
  }

  lemma NextOnView(log: Log, s: System, turn: Turn, id: AuctionId)
    requires Routed(log)
    ensures var v, w := ViewOf(s, id), ViewOf(Next(log, s, turn), id);
            w == if turn == Consume(id) && v.offset < |log(id)| then Handled(v, log(id)[v.offset])
                 else if turn == End(id) && v.auction.Some? then v.(auction := Some(Close(v.auction.value)))
                 else v
  {
  }

  lemma HandledOnRow(row: Option<Auction>, messages: seq<Message>, n: nat, ended: bool, count: nat)
    requires n <= count < |messages| && (!ended ==> n == count)
    ensures var now := ExpectedRow(row, messages, n, ended);
            var n' := if ended then n else n + 1;
            && (now.Some? ==> row.Some?)
            && (if now.Some? then
                  && Some(Process(now.value, messages[count])) == ExpectedRow(row, messages, n', ended)
                  && Rejection(now.value, messages[count]) == Expected(row, messages, n', count)
                else ExpectedRow(row, messages, n', ended) == None && row == None)
  {
    if row.Some? && row.value.isOpen {
      ConsumeReachesPeak(row.value, messages[..n]);
      assert messages[..n + 1][..n] == messages[..n];
      AcceptedAreRecords(row.value, messages, n);
    }
  }

  lemma HandledIsAnswered(v0: View, messages: seq<Message>, v: View, n: nat, ended: bool, count: nat)
    requires Answered(v0, messages, v, n, ended, count) && count < |messages|
    ensures Answered(v0, messages, Handled(v, messages[count]), if ended then n else n + 1, ended, count + 1)
  {
    hide ExpectedRow, AuctionRows.Consume, IsRecord;
    var w, n' := Handled(v, messages[count]), if ended then n else n + 1;
    HandledOnRow(v0.auction, messages, n, ended, count);
    assert w.outcomes[..|w.outcomes| - 1] == v.outcomes;
    forall k | 0 <= k < count + 1
      ensures w.outcomes[|v0.outcomes| + k] == Expected(v0.auction, messages, n', k)
    {
      if k < count {
        assert w.outcomes[|v0.outcomes| + k] == v.outcomes[|v0.outcomes| + k] == Expected(v0.auction, messages, n, k);
        assert k < n <==> k < n';
      } else {
        assert w.outcomes[|v0.outcomes| + k] == w.outcomes[|v.outcomes|];
      }
    }
  }

  /** How many of the auction's messages a schedule consumes before it ends the auction, if it does. */
  function ConsumedOpen(log: Log, s: System, turns: seq<Turn>, id: AuctionId): nat
    decreases |turns|
  {
    if turns == [] then 0
    else
      var init := turns[..|turns| - 1];
      if End(id) in init then ConsumedOpen(log, s, init, id)
      else
        var from, upTo := OffsetOf(s, id), OffsetOf(Run(log, s, turns), id);
        if from <= upTo then upTo - from else 0
  }

  /**
   Under any schedule, each message of an auction's partition is answered by its place in the partition alone: while
   the auction is open, accepted if and only if it is a record above the starting bid, and too low otherwise; closed
   after the end; not found if there is no such auction.  As many bids are added as messages are accepted.
   */
  lemma {:induction false} EachBidIsAnswered(log: Log, s: System, turns: seq<Turn>, id: AuctionId)
    requires Routed(log) && OffsetOf(s, id) <= |log(id)|
    ensures var v0, v := ViewOf(s, id), ViewOf(Run(log, s, turns), id);
            && v0.offset <= v.offset
            && Answered(v0, log(id)[v0.offset..], v, ConsumedOpen(log, s, turns, id), End(id) in turns,
                        v.offset - v0.offset)
    decreases |turns|
  {
    hide Run, Answered, Next, ConsumedOpen, ViewOf, OffsetOf, Handled;
    StartOfView(s, id);
    if turns == [] {
      NothingAnswered(log, s, id);
    } else {
      var init, last := turns[..|turns| - 1], turns[|turns| - 1];
      assert turns == init + [last];
      EachBidIsAnswered(log, s, init, id);
      RunOneMoreTurn(log, s, init, last);
      NextOnView(log, Run(log, s, init), last, id);
      var v0, v, w := ViewOf(s, id), ViewOf(Run(log, s, init), id), ViewOf(Run(log, s, turns), id);
      TurnIsAnswered(v0, log(id), v, w, ConsumedOpen(log, s, init, id), End(id) in init, last, id);
      ConsumedOneMore(log, s, init, last, id);
    }
  }

  lemma StartOfView(s: System, id: AuctionId)
    ensures ViewOf(s, id).offset == OffsetOf(s, id)
  {
  }

  lemma NothingAnswered(log: Log, s: System, id: AuctionId)
    requires ViewOf(s, id).offset <= |log(id)|
    ensures Run(log, s, []) == s && ConsumedOpen(log, s, [], id) == 0
    ensures Answered(ViewOf(s, id), log(id)[ViewOf(s, id).offset..], ViewOf(s, id), 0, false, 0)
  {
    hide ViewOf;
    assert log(id)[ViewOf(s, id).offset..][..0] == [];
  }

  lemma TurnIsAnswered(
    v0: View, partition: seq<Message>, v: View, w: View, n: nat, ended: bool, turn: Turn, id: AuctionId
  )
    requires v0.offset <= v.offset && v0.offset <= |partition|
    requires Answered(v0, partition[v0.offset..], v, n, ended, v.offset - v0.offset)
    requires w == if turn == Consume(id) && v.offset < |partition| then Handled(v, partition[v.offset])
                  else if turn == End(id) && v.auction.Some? then v.(auction := Some(Close(v.auction.value)))
                  else v
    ensures v0.offset <= w.offset
    ensures Answered(v0, partition[v0.offset..], w, if ended then n else w.offset - v0.offset,
                     ended || turn == End(id), w.offset - v0.offset)
  {
    hide Answered, Handled;
    var messages := partition[v0.offset..];
    AnsweredInside(v0, messages, v, n, ended);
    if turn == Consume(id) && v.offset < |partition| {
      assert messages[v.offset - v0.offset] == partition[v.offset];
      HandledIsAnswered(v0, messages, v, n, ended, v.offset - v0.offset);
      HandledMoves(v, partition[v.offset]);
    } else if turn == End(id) {
      EndIsAnswered(v0, messages, v, n, ended);
    }
  }

  lemma RunOneMoreTurn(log: Log, s: System, turns: seq<Turn>, turn: Turn)
    ensures Run(log, s, turns + [turn]) == Next(log, Run(log, s, turns), turn)
  {
    assert (turns + [turn])[..|turns|] == turns;
  }

  lemma HandledMoves(v: View, m: Message)
    ensures Handled(v, m).offset == v.offset + 1
  {
  }

  lemma AnsweredInside(v0: View, messages: seq<Message>, v: View, n: nat, ended: bool)
    requires v0.offset <= v.offset && Answered(v0, messages, v, n, ended, v.offset - v0.offset)
    ensures v.offset - v0.offset <= |messages| && (!ended ==> n == v.offset - v0.offset)
  {
  }

  lemma EndIsAnswered(v0: View, messages: seq<Message>, v: View, n: nat, ended: bool)
    requires v0.offset <= v.offset && Answered(v0, messages, v, n, ended, v.offset - v0.offset)
    ensures var w := if v.auction.Some? then v.(auction := Some(Close(v.auction.value))) else v;
            Answered(v0, messages, w, n, true, v.offset - v0.offset)
  {
    if v0.auction.Some? && v0.auction.value.isOpen {
      ConsumeReachesPeak(v0.auction.value, messages[..n]);
    }
    hide Expected;
  }

  lemma ConsumedOneMore(log: Log, s: System, init: seq<Turn>, last: Turn, id: AuctionId)
    requires ViewOf(s, id).offset <= ViewOf(Run(log, s, init + [last]), id).offset
    ensures ConsumedOpen(log, s, init + [last], id)
            == if End(id) in init then ConsumedOpen(log, s, init, id)
               else ViewOf(Run(log, s, init + [last]), id).offset - ViewOf(s, id).offset
  {
    hide Run;
    assert (init + [last])[..|init|] == init;
  }

  function InTwoPartitions(m1: Message, m2: Message): Log {
    partition => if partition == 1 then [m1] else if partition == 2 then [m2] else []
  }

  /** The routing matters: with one auction's bids in two partitions, the schedule decides who is accepted. */
  lemma UnroutedDependsOnSchedule(s: System, m1: Message, m2: Message)
    requires m1.auctionId == m2.auctionId && m1.auctionId in s.auctions
    requires s.offsets == map[] && s.auctions[m1.auctionId].isOpen
    requires s.auctions[m1.auctionId].currentHighestBid < m1.amount < m2.amount
    ensures var log := InTwoPartitions(m1, m2);
            var first, second := Run(log, s, [Consume(1), Consume(2)]), Run(log, s, [Consume(2), Consume(1)]);
            && (forall id :: OnlyFor([Consume(1), Consume(2)], id) == OnlyFor([Consume(2), Consume(1)], id))
            && m1.auctionId in first.auctions && m1.auctionId in second.auctions
            && |first.auctions[m1.auctionId].bids| == |s.auctions[m1.auctionId].bids| + 2
            && |second.auctions[m1.auctionId].bids| == |s.auctions[m1.auctionId].bids| + 1
  {
    hide Run, OnlyFor;
    var log := InTwoPartitions(m1, m2);
    RunTwo(log, s, Consume(1), Consume(2));
    RunTwo(log, s, Consume(2), Consume(1));
  }

  lemma RunTwo(log: Log, s: System, x: Turn, y: Turn)
    ensures Run(log, s, [x, y]) == Next(log, Next(log, s, x), y)
    ensures forall id ::
              OnlyFor([x, y], id)
              == (if Concerns(x, id) then [x] else []) + (if Concerns(y, id) then [y] else [])
  {
    assert [x, y][..1] == [x] && [x][..0] == [];
    assert Run(log, s, [x]) == Next(log, s, x);
    forall id
      ensures OnlyFor([x, y], id) == (if Concerns(x, id) then [x] else []) + (if Concerns(y, id) then [y] else [])
    {
      assert OnlyFor([x], id) == if Concerns(x, id) then [x] else [];
    }
  }
}
