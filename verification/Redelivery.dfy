/**
 At-least-once delivery.  The consumer's offset is committed after a message is handled, so a crash or
 a rewind delivers messages again, in any pattern; the close may fall anywhere between deliveries.
 */
module Redelivery {
  import opened AuctionRows

  /** One delivery of a log entry, whose transaction was `completed` or lost to a crash; or the close. */
  datatype Event = Deliver(index: nat, completed: bool) | EndAuction

  predicate Processes(e: Event, index: nat) {
    e == Deliver(index, true)
  }

  predicate ProcessedIn(events: seq<Event>, index: nat) {
    exists k :: 0 <= k < |events| && Processes(events[k], index)
  }

  function Apply(auction: Auction, log: seq<Message>, e: Event): Auction {
    match e
    case Deliver(index, completed) =>
      if completed && index < |log| then Process(auction, log[index]) else auction
    case EndAuction => Close(auction)
  }

  function Run(auction: Auction, log: seq<Message>, events: seq<Event>): Auction
    decreases |events|
  {
    if events == [] then auction
    else Apply(Run(auction, log, events[..|events| - 1]), log, events[|events| - 1])
  }

  /** The same history with every delivery of an already processed message deleted. */
  function FirstDeliveries(events: seq<Event>): seq<Event>
    decreases |events|
  {
    if events == [] then []
    else
      var init, last := events[..|events| - 1], events[|events| - 1];
      FirstDeliveries(init) + if last.Deliver? && ProcessedIn(init, last.index) then [] else [last]
  }

  /** A message once processed is rejected by every later row of the history. */
  lemma {:induction false} ProcessedIsRejected(auction: Auction, log: seq<Message>, events: seq<Event>, index: nat)
    requires ProcessedIn(events, index) && index < |log|
    ensures Rejection(Run(auction, log, events), log[index]).Some?
    decreases |events|
  {
    var init, last := events[..|events| - 1], events[|events| - 1];
    if !Processes(last, index) {
      var k :| 0 <= k < |events| && Processes(events[k], index);
      assert Processes(init[k], index);
      ProcessedIsRejected(auction, log, init, index);
    }
  }

  /** Redelivery changes nothing: the final auction and bid rows are those of the first deliveries alone. */
  lemma {:induction false} AtLeastOnceIsExactlyOnce(auction: Auction, log: seq<Message>, events: seq<Event>)
    ensures Run(auction, log, FirstDeliveries(events)) == Run(auction, log, events)
    decreases |events|
  {
    if events == [] {
    } else {
      var init, last := events[..|events| - 1], events[|events| - 1];
      AtLeastOnceIsExactlyOnce(auction, log, init);
      if last.Deliver? && ProcessedIn(init, last.index) {
        if last.index < |log| {
          ProcessedIsRejected(auction, log, init, last.index);
        }
        assert FirstDeliveries(events) == FirstDeliveries(init);
      } else {
        var firsts := FirstDeliveries(events);
        assert firsts[..|firsts| - 1] == FirstDeliveries(init);
      }
    }
  }

  /** And in the first deliveries nothing follows the processing of a message but other messages and the close. */
  lemma {:induction false} FirstDeliveriesOnce(events: seq<Event>, i: int, j: int)
    requires var firsts := FirstDeliveries(events);
             0 <= i < j < |firsts| && firsts[i].Deliver? && firsts[i].completed && firsts[j].Deliver?
    ensures var firsts := FirstDeliveries(events); firsts[i].index != firsts[j].index
    decreases |events|
  {
    var init, last := events[..|events| - 1], events[|events| - 1];
    var firsts := FirstDeliveries(init);
    if j < |firsts| {
      FirstDeliveriesOnce(init, i, j);
    } else {
      FirstDeliveriesProcess(init, i);
    }
  }

  lemma {:induction false} FirstDeliveriesProcess(events: seq<Event>, i: int)
    requires 0 <= i < |FirstDeliveries(events)|
    requires FirstDeliveries(events)[i].Deliver? && FirstDeliveries(events)[i].completed
    ensures ProcessedIn(events, FirstDeliveries(events)[i].index)
    decreases |events|
  {
    var init, last := events[..|events| - 1], events[|events| - 1];
    var index := FirstDeliveries(events)[i].index;
    if i < |FirstDeliveries(init)| {
      FirstDeliveriesProcess(init, i);
      var k :| 0 <= k < |init| && Processes(init[k], index);
      assert Processes(events[k], index);
    } else {
      assert Processes(last, index);
    }
  }

  // ----- What a history comes to -----

  /** The messages whose deliveries were completed before the close, as often as they were. */
  function OpenDeliveries(log: seq<Message>, events: seq<Event>): seq<Message>
    decreases |events|
  {
    if events == [] then []
    else
      var init, last := events[..|events| - 1], events[|events| - 1];
      OpenDeliveries(log, init)
      + if EndAuction !in init && last.Deliver? && last.completed && last.index < |log| then [log[last.index]] else []
  }

  /**
   The rows are those of the deliveries completed before the close, one after another.  A delivery lost to a crash
   counts for nothing, and after the close nothing counts but the close.
   */
  lemma {:induction false} RunIsOpenDeliveries(auction: Auction, log: seq<Message>, events: seq<Event>)
    requires auction.isOpen
    ensures var open := Consume(auction, OpenDeliveries(log, events));
            && open.isOpen
            && Run(auction, log, events) == if EndAuction in events then open.(isOpen := false) else open
    decreases |events|
  {
    if events == [] {
    } else {
      var init, last := events[..|events| - 1], events[|events| - 1];
      var deliveries := OpenDeliveries(log, init);
      assert events == init + [last];
      RunIsOpenDeliveries(auction, log, init);
      ConsumeReachesPeak(auction, OpenDeliveries(log, events));
      if OpenDeliveries(log, events) != deliveries {
        assert OpenDeliveries(log, events)[..|deliveries|] == deliveries;
      }
    }
  }

  /** After the close no delivery, and no second close, changes a row. */
  lemma {:induction false} ClosedIsFinal(auction: Auction, log: seq<Message>, before: seq<Event>, after: seq<Event>)
    requires EndAuction in before
    ensures Run(auction, log, before + after) == Run(auction, log, before)
    ensures !Run(auction, log, before).isOpen
    decreases |after|
  {
    if after == [] {
      assert before + after == before;
      ClosedStays(auction, log, before);
    } else {
      var init := after[..|after| - 1];
      ClosedIsFinal(auction, log, before, init);
      assert (before + after)[..|before + after| - 1] == before + init;
    }
  }

  lemma {:induction false} ClosedStays(auction: Auction, log: seq<Message>, events: seq<Event>)
    requires EndAuction in events
    ensures !Run(auction, log, events).isOpen
    decreases |events|
  {
    var init, last := events[..|events| - 1], events[|events| - 1];
    if last != EndAuction {
      assert events == init + [last];
      ClosedStays(auction, log, init);
    }
  }
}
