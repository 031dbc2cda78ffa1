/** What bidders are told: the newBid and bidRejected events of an auction, against its log and its Bid rows. */
module Outcomes {
  import opened AuctionRows
  import opened Protocol
  import opened Serial
  import opened Wrappers
  import Sequential

  /** The events that answer a bid. */
  function Answers(events: seq<Event>): seq<Event>
    decreases |events|
  {
    if events == [] then []
    else
      var last := events[|events| - 1];
      Answers(events[..|events| - 1]) + if last.AuctionEnd? then [] else [last]
  }

  /** The announced bids, as rows. */
  function NewBids(events: seq<Event>): seq<Bid>
    decreases |events|
  {
    if events == [] then []
    else
      var last := events[|events| - 1];
      NewBids(events[..|events| - 1]) + if last.NewBid? then [Bid(last.amount, last.bidderId)] else []
  }

  lemma AnswersOneMore(events: seq<Event>, e: Event)
    ensures Answers(events + [e]) == Answers(events) + if e.AuctionEnd? then [] else [e]
    ensures NewBids(events + [e]) == NewBids(events) + if e.NewBid? then [Bid(e.amount, e.bidderId)] else []
  {
    assert (events + [e])[..|events|] == events;
  }

  /**
   The answer to message k if the auction was closed after `n` messages: newBid for a record of those before,
   too low for the others before, closed for all after.
   */
  ghost function AnswerTo(log: seq<Message>, n: nat, k: int): Event
    requires 0 <= k < |log|
  {
    if k < n then Sequential.RecordAnswer(0, log, k) else BidRejected(AuctionClosed, log[k].socketId)
  }

  ghost function SerialAnswers(log: seq<Message>, n: nat, count: nat): seq<Event>
    requires count <= |log|
  {
    seq(count, k requires 0 <= k < count => AnswerTo(log, n, k))
  }

  predicate HasSocket(step: Step) {
    step.Produce? ==> step.m.socketId != ""
  }

  /** No step loses the consumer, and every message names the socket to answer. */
  ghost predicate Undisturbed(steps: seq<Step>) {
    forall k | 0 <= k < |steps| :: !steps[k].Crash? && HasSocket(steps[k])
  }

  /** The rows that are committed and not still waiting to be announced. */
  function AnnouncedRows(s: State): seq<Bid> {
    if s.placing.Committed? && s.auction.bids != [] then s.auction.bids[..|s.auction.bids| - 1] else s.auction.bids
  }

  /** What a step publishes in answer to a bid. */
  function AnswersBy(s: State, step: Step): seq<Event> {
    if step.PublishBid? && s.placing.Committed? then [BidEvent(s.placing.m)]
    else if step.PublishRejection? && s.placing.Rejecting? then RejectionEvents(s.placing.m, s.placing.code)
    else []
  }

  function EventsBy(s: State, step: Step): seq<Event> {
    if step.PublishEnd? && step.i < |s.closings| && s.closings[step.i].Updated? then [AuctionEnd(s.closings[step.i].w)]
    else AnswersBy(s, step)
  }

  lemma NextPublishes(usernames: Usernames, s: State, step: Step)
    ensures Next(usernames, s, step).events == s.events + EventsBy(s, step)
  {
  }

  lemma StepOnEvents(usernames: Usernames, s: State, step: Step)
    ensures Answers(Next(usernames, s, step).events) == Answers(s.events) + AnswersBy(s, step)
    ensures NewBids(Next(usernames, s, step).events)
            == NewBids(s.events)
               + if step.PublishBid? && s.placing.Committed?
                 then [Bid(s.placing.m.amount, s.placing.m.bidderId)] else []
  {
    hide Next, Answers, NewBids;
    NextPublishes(usernames, s, step);
    if EventsBy(s, step) == [] {
      assert s.events + [] == s.events;
    } else {
      AnswersOneMore(s.events, EventsBy(s, step)[0]);
      assert EventsBy(s, step) == [EventsBy(s, step)[0]];
    }
  }

  /** How many messages have their answer: those passed, and the one at the offset once it is announced. */
  function AnsweredCount(s: State): nat {
    s.offset + if s.placing.Published? then 1 else 0
  }

  /** What the decided message at the offset is told, or was. */
  ghost predicate DecidedRight(s: State, n: nat) {
    && (s.placing.Committed? || s.placing.Published? ==>
          s.offset < |s.log| && BidEvent(s.placing.m) == AnswerTo(s.log, n, s.offset))
    && (s.placing.Rejecting? ==>
          && s.offset < |s.log| && s.placing.m == s.log[s.offset]
          && BidRejected(s.placing.code, s.placing.m.socketId) == AnswerTo(s.log, n, s.offset))
  }

  function ClosedAfter(s: State, n: nat): Option<nat> {
    if s.auction.isOpen then None else Some(n)
  }

  /** The rows and the answers so far are those of one serial pass, closed after `n` messages. */
  ghost predicate Answered(s: State, n: nat) {
    && SerialAt(s, DecidedCount(s), ClosedAfter(s, n)) && n == OpenCount(DecidedCount(s), ClosedAfter(s, n))
    && DecidedRight(s, n)
    && AnsweredCount(s) <= |s.log|
    && Answers(s.events) == SerialAnswers(s.log, n, AnsweredCount(s))
    && forall k | 0 <= k < |s.log| :: s.log[k].socketId != ""
  }

  lemma AnswerStays(log: seq<Message>, more: seq<Message>, n: nat, n': nat, k: int)
    requires 0 <= k < |log| && (n' == n || (k < n && n' == n + 1))
    ensures AnswerTo(log + more, n', k) == AnswerTo(log, n, k)
  {
    assert forall j | 0 <= j <= k :: (log + more)[j] == log[j];
    assert IsRecord(0, log + more, k) <==> IsRecord(0, log, k);
  }

  lemma AnswersGrow(log: seq<Message>, more: seq<Message>, n: nat, n': nat, count: nat, answer: seq<Event>)
    requires count <= |log| && (n' == n || (count <= n && n' == n + 1))
    requires answer == [] || (count < |log| && n' == n && answer == [AnswerTo(log, n, count)])
    ensures SerialAnswers(log, n, count) + answer == SerialAnswers(log + more, n', count + |answer|)
  {
    hide AnswerTo;
    var before, after := SerialAnswers(log, n, count) + answer, SerialAnswers(log + more, n', count + |answer|);
    forall k | 0 <= k < |before| ensures before[k] == after[k] {
      AnswerStays(log, more, n, n', k);
    }
  }

  /** A bid read while the auction was open is decided by whether it is a record of the log so far. */
  lemma OpenDecision(s: State, step: Step, n: nat)
    requires Answered(s, n) && Safe(s) && DecidesOpen(s, step) && n == s.offset
    ensures s.offset < |s.log|
    ensures AnswerTo(s.log, n + 1, s.offset)
            == if step.CommitBid? then BidEvent(s.log[s.offset]) else BidRejected(BidTooLow, s.log[s.offset].socketId)
  {
    AcceptedAreRecords(NEW_AUCTION, s.log, s.offset);
    ConsumeReachesPeak(NEW_AUCTION, s.log[..s.offset]);
  }

  /** The message that a step decides gets the serial answer. */
  lemma NextDecidesRight(usernames: Usernames, s: State, step: Step, n: nat, n': nat)
    requires Answered(s, n) && Safe(s) && !step.Crash?
    requires if DecidesOpen(s, step) then n == s.offset && n' == n + 1 else n' == n
    ensures DecidedRight(Next(usernames, s, step), n')
  {
    if DecidesOpen(s, step) {
      OpenDecision(s, step, n);
    } else if Reads(s, step) {
      assert !s.auction.isOpen ==> n <= s.offset;
    } else {
      DecisionStays(usernames, s, step, n);
    }
  }

  lemma DecisionStays(usernames: Usernames, s: State, step: Step, n: nat)
    requires DecidedRight(s, n) && !Reads(s, step) && !Commits(s, step)
    ensures DecidedRight(Next(usernames, s, step), n)
  {
    hide AnswerTo, WinningBid, RoomOf;
    if step.Produce? && s.offset < |s.log| {
      AnswerStays(s.log, [step.m], n, n, s.offset);
    }
  }

  /** A publishing step answers the message at the offset, and no step skips one. */
  lemma StepOnCount(usernames: Usernames, s: State, step: Step, n: nat)
    requires Answered(s, n) && !step.Crash?
    ensures var answer, t := AnswersBy(s, step), Next(usernames, s, step);
            && AnsweredCount(t) == AnsweredCount(s) + |answer|
            && t.log == s.log + (if step.Produce? then [step.m] else [])
            && (answer == [] || (AnsweredCount(s) == s.offset < |s.log| && answer == [AnswerTo(s.log, n, s.offset)]))
            && (answer != [] ==> !DecidesOpen(s, step))
            && (DecidesOpen(s, step) ==> AnsweredCount(s) == s.offset)
  {
    hide AnswerTo, WinningBid, RoomOf, Answers, SerialAnswers, Consume;
  }

  lemma NextKeepsAnswered(usernames: Usernames, s: State, step: Step, n: nat) returns (n': nat)
    requires Answered(s, n) && Safe(s) && !step.Crash? && HasSocket(step)
    ensures Answered(Next(usernames, s, step), n')
  {
    hide Next, Safe, Answers, AnsweredCount, AnswersBy, SerialAt, DecidedRight, DecidesOpen, AnswerTo, SerialAnswers;
    var handled, closedAfter := NextKeepsSerial(usernames, s, step, DecidedCount(s), ClosedAfter(s, n));
    n' := OpenCount(handled, closedAfter);
    SerialAtOpen(Next(usernames, s, step), handled, closedAfter);
    NextDecidesRight(usernames, s, step, n, n');
    StepOnEvents(usernames, s, step);
    StepOnCount(usernames, s, step, n);
    AnswersGrow(s.log, if step.Produce? then [step.m] else [], n, n', AnsweredCount(s), AnswersBy(s, step));
    CountInLog(Next(usernames, s, step), handled, closedAfter);
  }

  lemma SerialAtOpen(s: State, handled: nat, closedAfter: Option<nat>)
    requires SerialAt(s, handled, closedAfter)
    ensures s.auction.isOpen == closedAfter.None?
  {
  }

  lemma CountInLog(s: State, handled: nat, closedAfter: Option<nat>)
    requires SerialAt(s, handled, closedAfter)
    ensures AnsweredCount(s) <= |s.log|
  {
  }

  lemma NothingAnsweredYet()
    ensures Answered(INITIAL, 0)
  {
  }

  lemma {:induction false} RunKeepsAnswered(usernames: Usernames, steps: seq<Step>) returns (n: nat)
    requires Undisturbed(steps)
    ensures Answered(Run(usernames, INITIAL, steps), n)
    decreases |steps|
  {
    hide Next, Answered, Safe;
    if steps == [] {
      n := 0;
      NothingAnsweredYet();
    } else {
      var init := steps[..|steps| - 1];
      InitialIsSafe();
      RunKeepsSafe(usernames, INITIAL, init);
      n := RunKeepsAnswered(usernames, init);
      n := NextKeepsAnswered(usernames, Run(usernames, INITIAL, init), steps[|steps| - 1], n);
    }
  }

  /** The rows are those of the first `n` consumed messages, and each consumed message has that pass's answer. */
  ghost predicate AnsweredAsSerial(s: State, n: nat) {
    && n <= s.offset <= |s.log| && (s.auction.isOpen ==> n == s.offset)
    && s.auction == (var open := Consume(NEW_AUCTION, s.log[..n]); if s.auction.isOpen then open else Close(open))
    && Answers(s.events) == SerialAnswers(s.log, n, s.offset)
  }

  lemma IdleIsAnswered(s: State, n: nat)
    requires Answered(s, n) && s.placing.Idle?
    ensures AnsweredAsSerial(s, n)
  {
    hide Answers, SerialAnswers;
  }

  lemma {:induction false} NothingLost(usernames: Usernames, steps: seq<Step>)
    requires Undisturbed(steps)
    ensures Unannounced(usernames, steps) == 0
    decreases |steps|
  {
    hide Run;
    if steps == [] {
    } else {
      NothingLost(usernames, steps[..|steps| - 1]);
    }
  }

  /**
   Without crashes, an idle consumer has answered each consumed message exactly once, in log order: newBid if and only
   if it is a record of the messages before the close, too low for the others before it, closed for those after.
   And the newBid stream is the Bid table in commit order, strictly rising.
   */
  lemma EveryBidAnsweredOnce(usernames: Usernames, steps: seq<Step>)
    requires Undisturbed(steps) && Run(usernames, INITIAL, steps).placing.Idle?
    ensures exists n: nat :: AnsweredAsSerial(Run(usernames, INITIAL, steps), n)
    ensures var s := Run(usernames, INITIAL, steps);
            && NewBids(s.events) == s.auction.bids
            && (forall i, j | 0 <= i < j < |NewBids(s.events)| ::
                  NewBids(s.events)[i].amount < NewBids(s.events)[j].amount)
  {
    var n := RunKeepsAnswered(usernames, steps);
    IdleIsAnswered(Run(usernames, INITIAL, steps), n);
    NothingLost(usernames, steps);
    AnnouncementsAreSubsequence(usernames, steps);
    RunKeepsSafe(usernames, INITIAL, steps);
  }

  // ----- With crashes -----

  predicate IsSubsequence(sub: seq<Bid>, all: seq<Bid>)
    decreases |all|
  {
    if all == [] then sub == []
    else
      || IsSubsequence(sub, all[..|all| - 1])
      || (sub != [] && sub[|sub| - 1] == all[|all| - 1] && IsSubsequence(sub[..|sub| - 1], all[..|all| - 1]))
  }

  lemma {:induction false} SubsequenceExtends(sub: seq<Bid>, all: seq<Bid>, last: Bid)
    requires IsSubsequence(sub, all)
    ensures IsSubsequence(sub, all + [last]) && IsSubsequence(sub + [last], all + [last])
  {
    assert (all + [last])[..|all|] == all && (sub + [last])[..|sub|] == sub;
  }

  /** How many commits were lost to a crash before their newBid was published. */
  function Unannounced(usernames: Usernames, steps: seq<Step>): nat
    decreases |steps|
  {
    if steps == [] then 0
    else
      var init, last := steps[..|steps| - 1], steps[|steps| - 1];
      var s := Run(usernames, INITIAL, init);
      Unannounced(usernames, init)
      + if LosesCommit(s, last) then 1 else 0
  }

  ghost predicate CommittedIsLast(s: State) {
    s.placing.Committed? ==>
      s.auction.bids != [] && s.auction.bids[|s.auction.bids| - 1] == Bid(s.placing.m.amount, s.placing.m.bidderId)
  }

  ghost predicate Faithful(s: State, lost: nat) {
    && CommittedIsLast(s)
    && IsSubsequence(NewBids(s.events), AnnouncedRows(s))
    && |NewBids(s.events)| + lost == |AnnouncedRows(s)|
  }

  predicate LosesCommit(s: State, step: Step) {
    step.Crash? && step.resumeAt <= s.offset && s.placing.Committed?
  }

  /** Only an announcement or a lost commit moves the stream or the rows it is measured against. */
  lemma StepOnStreams(usernames: Usernames, s: State, step: Step)
    requires CommittedIsLast(s)
    ensures var t := Next(usernames, s, step);
            && CommittedIsLast(t)
            && (step.PublishBid? && s.placing.Committed? ==>
                  var bid := Bid(s.placing.m.amount, s.placing.m.bidderId);
                  NewBids(t.events) == NewBids(s.events) + [bid] && AnnouncedRows(t) == AnnouncedRows(s) + [bid])
            && (!(step.PublishBid? && s.placing.Committed?) ==> NewBids(t.events) == NewBids(s.events))
            && (LosesCommit(s, step) ==>
                  AnnouncedRows(t) == AnnouncedRows(s) + [Bid(s.placing.m.amount, s.placing.m.bidderId)])
            && (!(step.PublishBid? && s.placing.Committed?) && !LosesCommit(s, step) ==>
                  AnnouncedRows(t) == AnnouncedRows(s))
  {
    hide Answers, NewBids;
    StepOnEvents(usernames, s, step);
  }

  lemma NextKeepsFaithful(usernames: Usernames, s: State, step: Step, lost: nat)
    requires Faithful(s, lost)
    ensures Faithful(Next(usernames, s, step), lost + if LosesCommit(s, step) then 1 else 0)
  {
    StepOnStreams(usernames, s, step);
    hide Next, NewBids, AnnouncedRows;
    if s.placing.Committed? {
      SubsequenceExtends(NewBids(s.events), AnnouncedRows(s), Bid(s.placing.m.amount, s.placing.m.bidderId));
    }
  }

  lemma {:induction false} RunKeepsFaithful(usernames: Usernames, steps: seq<Step>)
    ensures Faithful(Run(usernames, INITIAL, steps), Unannounced(usernames, steps))
    decreases |steps|
  {
    if steps == [] {
    } else {
      hide Next, Faithful, NewBids, AnnouncedRows;
      var init := steps[..|steps| - 1];
      RunKeepsFaithful(usernames, init);
      NextKeepsFaithful(usernames, Run(usernames, INITIAL, init), steps[|steps| - 1], Unannounced(usernames, init));
    }
  }

  /**
   With crashes and redelivery no bid is announced twice or out of order: in every state the newBid stream is a
   subsequence of the Bid rows.  Once the consumer is idle it is short by exactly the crashes that fell between a
   commit and its publication.
   */
  lemma AnnouncementsAreSubsequence(usernames: Usernames, steps: seq<Step>)
    ensures var s := Run(usernames, INITIAL, steps);
            && IsSubsequence(NewBids(s.events), s.auction.bids)
            && (s.placing.Idle? ==>
                  && |NewBids(s.events)| + Unannounced(usernames, steps) == |s.auction.bids|
                  && (NewBids(s.events) == s.auction.bids <==> Unannounced(usernames, steps) == 0))
  {
    hide Run, NewBids, Unannounced, IsSubsequence;
    RunKeepsFaithful(usernames, steps);
    FaithfulIsSubsequence(Run(usernames, INITIAL, steps), Unannounced(usernames, steps));
  }

  lemma FaithfulIsSubsequence(s: State, lost: nat)
    requires Faithful(s, lost)
    ensures IsSubsequence(NewBids(s.events), s.auction.bids)
    ensures s.placing.Idle? ==>
              |NewBids(s.events)| + lost == |s.auction.bids| && (NewBids(s.events) == s.auction.bids <==> lost == 0)
  {
    hide NewBids, IsSubsequence;
    var bids := s.auction.bids;
    if s.placing.Committed? && bids != [] {
      SubsequenceExtends(NewBids(s.events), AnnouncedRows(s), bids[|bids| - 1]);
      assert AnnouncedRows(s) + [bids[|bids| - 1]] == bids;
    } else {
      FullSubsequence(NewBids(s.events), bids);
    }
  }

  lemma {:induction false} FullSubsequence(sub: seq<Bid>, all: seq<Bid>)
    requires IsSubsequence(sub, all)
    ensures |sub| <= |all|
    ensures |sub| == |all| ==> sub == all
    decreases |all|
  {
    if all == [] {
    } else {
      var init := all[..|all| - 1];
      if IsSubsequence(sub, init) {
        FullSubsequence(sub, init);
      } else {
        FullSubsequence(sub[..|sub| - 1], init);
      }
    }
  }

  // ----- Whose name is told -----

  ghost predicate NamesProduced(usernames: Usernames, steps: seq<Step>) {
    forall k | 0 <= k < |steps| && steps[k].Produce? :: steps[k].m.bidderUsername == usernames(steps[k].m.bidderId)
  }

  /** Every name published, cached or answered belongs to the user it stands beside. */
  ghost predicate NamesRight(usernames: Usernames, s: State) {
    && (forall k | 0 <= k < |s.events| && s.events[k].NewBid? ::
          s.events[k].bidderUsername == usernames(s.events[k].bidderId))
    && (forall k | 0 <= k < |s.events| && s.events[k].AuctionEnd? ::
          WinnerNamed(usernames, s.events[k].winning.userId, s.events[k].winning.username))
    && (s.cache.Some? ==> WinnerNamed(usernames, s.cache.value.winnerId, s.cache.value.winnerUsername))
    && (forall k | 0 <= k < |s.readings| && s.readings[k].Answered? ::
          WinnerNamed(usernames, s.readings[k].room.winnerId, s.readings[k].room.winnerUsername))
  }

  predicate WinnerNamed(usernames: Usernames, userId: Option<UserId>, username: Option<string>) {
    username == if userId.Some? then Some(usernames(userId.value)) else None
  }

  /** And so do the names on their way there. */
  ghost predicate NamesPending(usernames: Usernames, s: State) {
    && (forall k | 0 <= k < |s.log| :: s.log[k].bidderUsername == usernames(s.log[k].bidderId))
    && (!s.placing.Idle? ==> s.placing.m.bidderUsername == usernames(s.placing.m.bidderId))
    && (forall k | 0 <= k < |s.closings| && (s.closings[k].Updated? || s.closings[k].Announced?) ::
          WinnerNamed(usernames, s.closings[k].w.userId, s.closings[k].w.username))
    && (forall k | 0 <= k < |s.readings| && s.readings[k].Loaded? ::
          WinnerNamed(usernames, s.readings[k].room.winnerId, s.readings[k].room.winnerUsername))
  }

  lemma NextKeepsNames(usernames: Usernames, s: State, step: Step)
    requires NamesRight(usernames, s) && NamesPending(usernames, s)
    requires step.Produce? ==> step.m.bidderUsername == usernames(step.m.bidderId)
    ensures NamesRight(usernames, Next(usernames, s, step)) && NamesPending(usernames, Next(usernames, s, step))
  {
    hide TopBid;
  }

  lemma {:induction false} RunKeepsNames(usernames: Usernames, steps: seq<Step>)
    requires NamesProduced(usernames, steps)
    ensures NamesRight(usernames, Run(usernames, INITIAL, steps))
    ensures NamesPending(usernames, Run(usernames, INITIAL, steps))
    decreases |steps|
  {
    if steps == [] {
    } else {
      hide Next, NamesRight, NamesPending;
      RunKeepsNames(usernames, steps[..|steps| - 1]);
      NextKeepsNames(usernames, Run(usernames, INITIAL, steps[..|steps| - 1]), steps[|steps| - 1]);
    }
  }

  /**
   When the gateway puts each bidder's own name in its messages, every name in a newBid, an auctionEnd, the cache or
   an answer of getAuctionState, in every reachable state, is that of the user named beside it.
   */
  lemma EveryNameIsRight(usernames: Usernames, steps: seq<Step>)
    requires NamesProduced(usernames, steps)
    ensures NamesRight(usernames, Run(usernames, INITIAL, steps))
  {
    RunKeepsNames(usernames, steps);
  }
}
