/**
 Serializability.  With steps interleaved, the consumer crashing and messages redelivered, the row is always
 the one obtained by processing a prefix of the log once, in order, with the close at one point of it.
 */
module Serial {
  import opened AuctionRows
  import opened Protocol
  import opened Wrappers

  /** The first `handled` messages in order; the auction, if closed, was closed after `closedAfter` of them. */
  function SerialRow(log: seq<Message>, handled: nat, closedAfter: Option<nat>): Auction
    requires handled <= |log| && (closedAfter.Some? ==> closedAfter.value <= handled)
  {
    match closedAfter
    case None => Consume(NEW_AUCTION, log[..handled])
    case Some(n) => Consume(Close(Consume(NEW_AUCTION, log[..n])), log[n..handled])
  }

  /** `s.auction` is the serial row after `handled` messages, at least those the offset has passed. */
  ghost predicate IsSerial(s: State, handled: nat, closedAfter: Option<nat>) {
    && s.offset <= handled <= |s.log|
    && (closedAfter.Some? ==> closedAfter.value <= handled)
    && s.auction.isOpen == closedAfter.None?
    && s.auction == SerialRow(s.log, handled, closedAfter)
  }

  lemma {:induction false} ClosedRefusesAll(auction: Auction, log: seq<Message>)
    requires !auction.isOpen
    ensures Consume(auction, log) == auction
    decreases |log|
  {
    if log == [] {
    } else {
      ClosedRefusesAll(auction, log[..|log| - 1]);
    }
  }

  lemma HandleOneMore(log: seq<Message>, handled: nat)
    requires handled < |log|
    ensures Consume(NEW_AUCTION, log[..handled + 1]) == Process(Consume(NEW_AUCTION, log[..handled]), log[handled])
  {
    assert log[..handled + 1][..handled] == log[..handled];
  }

  /** `handled` counts the messages whose transaction has been decided; it never falls, though the offset may. */
  ghost predicate SerialAt(s: State, handled: nat, closedAfter: Option<nat>) {
    && s.offset <= handled <= |s.log|
    && (closedAfter.Some? ==> closedAfter.value <= handled)
    && s.auction.isOpen == closedAfter.None?
    && s.auction == (var open := Consume(NEW_AUCTION, s.log[..OpenCount(handled, closedAfter)]);
                     if closedAfter.Some? then Close(open) else open)
    && (!s.placing.Idle? ==> s.offset < |s.log| && s.placing.m == s.log[s.offset])
    && (s.placing.Accepting? ==> s.offset == handled && (closedAfter.Some? ==> closedAfter.value == handled))
    && (s.placing.Committed? || s.placing.Published? || s.placing.Rejecting? ==> s.offset < handled)
  }

  /** How many messages have their transaction decided, when nothing is ever redelivered. */
  function DecidedCount(s: State): nat {
    s.offset + if s.placing.Committed? || s.placing.Published? || s.placing.Rejecting? then 1 else 0
  }

  /** How many messages were decided while the auction was open. */
  function OpenCount(handled: nat, closedAfter: Option<nat>): nat {
    if closedAfter.Some? then closedAfter.value else handled
  }

  /** A message handled while the auction stays open is too low from then on. */
  lemma HandledIsTooLow(s: State, handled: nat, i: nat)
    requires SerialAt(s, handled, None) && i < handled
    ensures s.log[i].amount <= s.auction.currentHighestBid
  {
    ConsumeReachesPeak(NEW_AUCTION, s.log[..handled]);
    PeakIsMaximum(0, s.log[..handled]);
    assert s.log[..handled][i] == s.log[i];
  }

  lemma ReadKeepsSerial(s: State, handled: nat, closedAfter: Option<nat>) returns (handled': nat)
    requires SerialAt(s, handled, closedAfter) && s.placing.Idle? && s.offset < |s.log|
    ensures handled <= handled' && SerialAt(ReadStep(s), handled', closedAfter)
    ensures handled == s.offset ==>
              && handled' == DecidedCount(ReadStep(s))
              && OpenCount(handled', closedAfter)
                 == OpenCount(handled, closedAfter) + if DecidesOpen(s, ReadAuction) then 1 else 0
  {
    handled' := handled;
    if s.offset < handled {
      if closedAfter == None {
        HandledIsTooLow(s, handled, s.offset);
      }
    } else if ReadStep(s).placing.Rejecting? {
      handled' := handled + 1;
      HandleOneMore(s.log, handled);
    }
  }

  lemma CommitKeepsSerial(usernames: Usernames, s: State, handled: nat, closedAfter: Option<nat>)
      returns (closedAfter': Option<nat>)
    requires SerialAt(s, handled, closedAfter) && Safe(s) && s.placing.Accepting?
    ensures SerialAt(Next(usernames, s, CommitBid), handled + 1, closedAfter')
    ensures OpenCount(handled, closedAfter) == s.offset && OpenCount(handled + 1, closedAfter') == s.offset + 1
  {
    closedAfter' := if closedAfter.Some? then Some(handled + 1) else None;
    HandleOneMore(s.log, handled);
    ConsumeReachesPeak(NEW_AUCTION, s.log[..handled]);
  }

  predicate Reads(s: State, step: Step) {
    step.ReadAuction? && s.placing.Idle? && s.offset < |s.log|
  }

  predicate Commits(s: State, step: Step) {
    step.CommitBid? && s.placing.Accepting?
  }

  /** The step decides the message at the offset, read while the auction was open. */
  predicate DecidesOpen(s: State, step: Step) {
    Commits(s, step) || (Reads(s, step) && s.auction.isOpen && Rejection(s.auction, s.log[s.offset]).Some?)
  }

  /** Only the close, among the other steps, changes what the row says. */
  lemma OtherStepKeepsSerial(usernames: Usernames, s: State, step: Step, handled: nat, closedAfter: Option<nat>)
    requires SerialAt(s, handled, closedAfter) && !Reads(s, step) && !Commits(s, step)
    ensures var t := Next(usernames, s, step);
            SerialAt(t, handled, if t.auction.isOpen then None else Some(OpenCount(handled, closedAfter)))
    ensures !step.Crash? && handled == DecidedCount(s) ==> handled == DecidedCount(Next(usernames, s, step))
  {
    hide WinningBid, RoomOf, Consume;
    var n := OpenCount(handled, closedAfter);
    assert step.Produce? ==> Next(usernames, s, step).log[..n] == s.log[..n];
  }

  lemma NextKeepsSerial(usernames: Usernames, s: State, step: Step, handled: nat, closedAfter: Option<nat>)
      returns (handled': nat, closedAfter': Option<nat>)
    requires SerialAt(s, handled, closedAfter) && Safe(s)
    ensures handled <= handled' && SerialAt(Next(usernames, s, step), handled', closedAfter')
    ensures !step.Crash? && handled == DecidedCount(s) ==>
              && handled' == DecidedCount(Next(usernames, s, step))
              && var n, n' := OpenCount(handled, closedAfter), OpenCount(handled', closedAfter');
                 if DecidesOpen(s, step) then n == s.offset && n' == n + 1 else n' == n
  {
    if Reads(s, step) {
      handled' := ReadKeepsSerial(s, handled, closedAfter);
      closedAfter' := closedAfter;
    } else if Commits(s, step) {
      handled' := handled + 1;
      closedAfter' := CommitKeepsSerial(usernames, s, handled, closedAfter);
    } else {
      OtherStepKeepsSerial(usernames, s, step, handled, closedAfter);
      hide SerialAt, Next;
      handled' := handled;
      closedAfter' := if Next(usernames, s, step).auction.isOpen then None else Some(OpenCount(handled, closedAfter));
    }
  }

  lemma {:induction false} RunIsSerial(usernames: Usernames, steps: seq<Step>)
      returns (handled: nat, closedAfter: Option<nat>)
    ensures SerialAt(Run(usernames, INITIAL, steps), handled, closedAfter)
    decreases |steps|
  {
    if steps == [] {
      handled, closedAfter := 0, None;
    } else {
      var init := steps[..|steps| - 1];
      handled, closedAfter := RunIsSerial(usernames, init);
      RunKeepsSafe(usernames, INITIAL, init);
      handled, closedAfter :=
        NextKeepsSerial(usernames, Run(usernames, INITIAL, init), steps[|steps| - 1], handled, closedAfter);
    }
  }

  /**
   Every reachable row equals a serial, exactly-once processing of a prefix of the partition, with the close at
   one point of it; and once the consumer is idle at the end of the log, that prefix is the whole log.
   */
  lemma Serializable(usernames: Usernames, steps: seq<Step>)
    ensures exists handled: nat, closedAfter: Option<nat> ::
              IsSerial(Run(usernames, INITIAL, steps), handled, closedAfter)
  {
    var s := Run(usernames, INITIAL, steps);
    var handled, closedAfter := RunIsSerial(usernames, steps);
    if closedAfter.Some? {
      var n := closedAfter.value;
      ConsumeReachesPeak(NEW_AUCTION, s.log[..n]);
      ClosedRefusesAll(Close(Consume(NEW_AUCTION, s.log[..n])), s.log[n..handled]);
    }
    assert IsSerial(s, handled, closedAfter);
  }

  /** The row's highest bid is the peak of the first `n` messages, won by the first of them to reach it. */
  ghost predicate WonByEarliestPeak(auction: Auction, log: seq<Message>, n: nat)
    requires n <= |log|
  {
    && auction.currentHighestBid == Peak(0, log[..n])
    && (Peak(0, log[..n]) == 0 ==> auction.winnerId == None)
    && (0 < Peak(0, log[..n]) ==>
          exists i :: 0 <= i < n && log[i].amount == Peak(0, log[..n])
            && (forall j | 0 <= j < i :: log[j].amount < Peak(0, log[..n]))
            && auction.winnerId == Some(log[i].bidderId))
  }

  ghost predicate IsEarliestPeakRow(s: State, n: nat) {
    && n <= |s.log|
    && WonByEarliestPeak(s.auction, s.log, n)
    && (s.auction.isOpen && s.offset == |s.log| ==> n == |s.log|)
  }

  /**
   What that says of bids: every reachable row is won by the earliest peak of some prefix of the partition,
   and of all of it once the consumer has caught up with an auction still open.
   */
  lemma EveryRowIsEarliestPeak(usernames: Usernames, steps: seq<Step>)
    ensures exists n: nat :: IsEarliestPeakRow(Run(usernames, INITIAL, steps), n)
  {
    var s := Run(usernames, INITIAL, steps);
    var handled, closedAfter := RunIsSerial(usernames, steps);
    var n := if closedAfter.Some? then closedAfter.value else handled;
    var prefix := s.log[..n];
    EarliestPeakWins(NEW_AUCTION, prefix);
    if 0 < Peak(0, prefix) {
      var i :| 0 <= i < |prefix| && prefix[i].amount == Peak(0, prefix)
               && (forall j | 0 <= j < i :: prefix[j].amount < Peak(0, prefix))
               && Consume(NEW_AUCTION, prefix).winnerId == Some(prefix[i].bidderId);
      assert s.log[i].amount == Peak(0, prefix) && forall j | 0 <= j < i :: s.log[j] == prefix[j];
    }
    assert IsEarliestPeakRow(s, n);
  }
}
