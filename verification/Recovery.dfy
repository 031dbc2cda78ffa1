/** A consumer that comes back: what it has to do again, and that doing it again is harmless. */
module Recovery {
  import opened AuctionRows
  import opened Protocol
  import opened Serial
  import opened Wrappers
  import Sequential

  /** What the bids of a log are told when each is refused for the same reason. */
  function Refusals(log: seq<Message>, code: ErrorCode): seq<Event>
    decreases |log|
  {
    if log == [] then []
    else
      var last := log[|log| - 1];
      Refusals(log[..|log| - 1], code) + if last.socketId == "" then [] else [BidRejected(code, last.socketId)]
  }

  /** Why a message already handled is refused. */
  function RefusalNow(s: State): ErrorCode {
    if s.auction.isOpen then BidTooLow else AuctionClosed
  }

  lemma HandledIsRefused(s: State, handled: nat, closedAfter: Option<nat>, i: nat)
    requires SerialAt(s, handled, closedAfter) && i < handled
    ensures Rejection(s.auction, s.log[i]) == Some(RefusalNow(s))
  {
    if s.auction.isOpen {
      HandledIsTooLow(s, handled, i);
    }
  }

  lemma RefusalsOneMore(log: seq<Message>, from: nat, upTo: nat, code: ErrorCode)
    requires from <= upTo < |log|
    ensures Refusals(log[from..upTo + 1], code)
            == Refusals(log[from..upTo], code)
               + if log[upTo].socketId == "" then [] else [BidRejected(code, log[upTo].socketId)]
  {
    assert log[from..upTo + 1][..upTo - from] == log[from..upTo];
  }

  /** `s` with the consumer idle at `offset` and the messages from `from` refused again. */
  function Refused(s: State, from: nat, offset: nat): State
    requires from <= offset <= |s.log|
  {
    s.(placing := Idle, offset := offset, events := s.events + Refusals(s.log[from..offset], RefusalNow(s)))
  }

  lemma {:induction false} CatchUp(
    usernames: Usernames, s: State, handled: nat, closedAfter: Option<nat>, from: nat, offset: nat
  ) returns (steps: seq<Step>)
    requires SerialAt(s, handled, closedAfter) && from <= offset <= handled
    ensures from <= offset <= |s.log|
    ensures Run(usernames, s.(placing := Idle, offset := from), steps) == Refused(s, from, offset)
    decreases offset - from
  {
    var start := s.(placing := Idle, offset := from);
    if offset == from {
      HandledInLog(s, handled, closedAfter);
      steps := [];
      assert s.log[from..from] == [];
    } else {
      hide Run, SerialAt, Refused, Refusals, Sequential.PlaceBid;
      var last := offset - 1;
      HandledInLog(s, handled, closedAfter);
      var before := CatchUp(usernames, s, handled, closedAfter, from, last);
      HandledIsRefused(s, handled, closedAfter, last);
      var again := OneMoreRefused(usernames, s, from, last);
      RunConcat(usernames, start, before, again);
      steps := before + again;
    }
  }

  lemma HandledInLog(s: State, handled: nat, closedAfter: Option<nat>)
    requires SerialAt(s, handled, closedAfter)
    ensures handled <= |s.log|
  {
  }

  lemma OneMoreRefused(usernames: Usernames, s: State, from: nat, last: nat) returns (steps: seq<Step>)
    requires from <= last < |s.log| && Rejection(s.auction, s.log[last]) == Some(RefusalNow(s))
    ensures Run(usernames, Refused(s, from, last), steps) == Refused(s, from, last + 1)
  {
    hide Run, Rejection, Refusals;
    steps := Sequential.PlaceBidSteps(usernames, Refused(s, from, last));
    RefusalsOneMore(s.log, from, last, RefusalNow(s));
  }

  /**
   From any reachable state, a crash that rewinds the consumer to any earlier offset loses nothing but its place: by
   going through the messages again it comes to where it was, with the same rows and the same cache, and has only
   told each of those bidders that the bid is refused.
   */
  lemma RewindIsHarmless(usernames: Usernames, before: seq<Step>, resumeAt: nat) returns (after: seq<Step>)
    requires resumeAt <= Run(usernames, INITIAL, before).offset
    ensures var s := Run(usernames, INITIAL, before);
            && s.offset <= |s.log|
            && Run(usernames, INITIAL, before + [Crash(resumeAt)] + after)
               == s.(placing := Idle,
                     events := s.events + Refusals(s.log[resumeAt..s.offset],
                                                   if s.auction.isOpen then BidTooLow else AuctionClosed))
  {
    hide Run;
    var s := Run(usernames, INITIAL, before);
    var handled, closedAfter := RunIsSerial(usernames, before);
    RunOneMore(usernames, INITIAL, before, Crash(resumeAt));
    after := CatchUp(usernames, s, handled, closedAfter, resumeAt, s.offset);
    RunConcat(usernames, INITIAL, before + [Crash(resumeAt)], after);
  }
}
