/**
 The Auction and Bid tables, and the bid transaction as a function on one auction's rows.
 Amounts are whole cents.  A table row's bids are listed in commit order.
 */
module AuctionRows {
  import opened Wrappers

  type AuctionId = int

  // autoincrement keys start at 1, so every id is truthy
  type UserId = i: int | 0 < i witness 1

  datatype Bid = Bid(amount: int, userId: UserId)

  datatype Auction = Auction(
    currentHighestBid: int,
    winnerId: Option<UserId>,
    isOpen: bool,
    version: int,
    bids: seq<Bid>)

  // A missing socket id is the empty string: both are falsy.
  datatype Message = Message(
    auctionId: AuctionId,
    amount: int,
    bidderId: UserId,
    bidderUsername: string,
    socketId: string)

  datatype ErrorCode = AuctionNotFound | AuctionClosed | BidTooLow

  const NEW_AUCTION := Auction(0, None, true, 1, [])

  /** The checks of the bid transaction on the row it read. */
  function Rejection(auction: Auction, m: Message): Option<ErrorCode> {
    if !auction.isOpen then Some(AuctionClosed)
    else if m.amount <= auction.currentHighestBid then Some(BidTooLow)
    else None
  }

  /** Both writes of the bid transaction, applied to whatever the row now is: nothing is compared. */
  function Commit(auction: Auction, m: Message): Auction {
    auction.(
      currentHighestBid := m.amount,
      winnerId := Some(m.bidderId),
      version := auction.version + 1,
      bids := auction.bids + [Bid(m.amount, m.bidderId)])
  }

  /** The bid transaction run alone. */
  function Process(auction: Auction, m: Message): Auction {
    if Rejection(auction, m).None? then Commit(auction, m) else auction
  }

  function Consume(auction: Auction, log: seq<Message>): Auction
    decreases |log|
  {
    if log == [] then auction
    else Process(Consume(auction, log[..|log| - 1]), log[|log| - 1])
  }

  function Close(auction: Auction): Auction {
    auction.(isOpen := false)
  }

  /** What every row keeps: bids rise, and the summary columns describe the last of them. */
  ghost predicate Consistent(auction: Auction) {
    var bids := auction.bids;
    && (forall i, j | 0 <= i < j < |bids| :: bids[i].amount < bids[j].amount)
    && (forall i | 0 <= i < |bids| :: 0 < bids[i].amount)
    && auction.version == 1 + |bids|
    && (bids == [] ==> auction.currentHighestBid == 0 && auction.winnerId == None)
    && (bids != [] ==>
      && auction.currentHighestBid == bids[|bids| - 1].amount
      && auction.winnerId == Some(bids[|bids| - 1].userId))
  }

  /** 0 for no bids; the column's default. */
  function MaxAmount(bids: seq<Bid>): int {
    if bids == [] then 0
    else
      var rest := MaxAmount(bids[..|bids| - 1]);
      var last := bids[|bids| - 1].amount;
      if rest < last then last else rest
  }

  ghost predicate IsUniqueTop(bids: seq<Bid>, i: int) {
    && 0 <= i < |bids|
    && forall j | 0 <= j < |bids| && j != i :: bids[j].amount < bids[i].amount
  }

  lemma {:induction false} MaxAmountIsLast(bids: seq<Bid>)
    requires forall i, j | 0 <= i < j < |bids| :: bids[i].amount < bids[j].amount
    requires forall i | 0 <= i < |bids| :: 0 < bids[i].amount
    ensures MaxAmount(bids) == if bids == [] then 0 else bids[|bids| - 1].amount
    decreases |bids|
  {
    if bids == [] {
    } else {
      MaxAmountIsLast(bids[..|bids| - 1]);
    }
  }

  /** In a consistent row the summary columns are the maximum and the unique top bidder. */
  lemma ConsistentSummary(auction: Auction)
    requires Consistent(auction)
    ensures auction.currentHighestBid == MaxAmount(auction.bids)
    ensures forall i | IsUniqueTop(auction.bids, i) :: auction.winnerId == Some(auction.bids[i].userId)
    ensures auction.bids != [] ==> IsUniqueTop(auction.bids, |auction.bids| - 1)
  {
    var bids := auction.bids;
    MaxAmountIsLast(bids);
    if bids != [] {
      forall i | IsUniqueTop(bids, i) ensures auction.winnerId == Some(bids[i].userId) {
        var top, last := bids[i].amount, bids[|bids| - 1].amount;
        assert i != |bids| - 1 ==> last < top;
      }
    }
  }

  /**
   The version column guards nothing: two transactions that both read `auction` both commit,
   and the row stays consistent exactly when the second one bids more.
   */
  lemma UnserializedCommits(auction: Auction, m1: Message, m2: Message)
    requires Consistent(auction)
    requires Rejection(auction, m1).None? && Rejection(auction, m2).None?
    ensures Consistent(Commit(Commit(auction, m1), m2)) <==> m1.amount < m2.amount
  {
    var bids := auction.bids;
    var row := Commit(Commit(auction, m1), m2);
    assert row.bids[|bids|].amount == m1.amount && row.bids[|bids| + 1].amount == m2.amount;
  }

  // ----- Which bids of a log are accepted -----

  predicate Accepted(auction: Auction, log: seq<Message>, i: int)
    requires 0 <= i < |log|
  {
    Rejection(Consume(auction, log[..i]), log[i]).None?
  }

  /** A strict left-to-right maximum above the starting bid. */
  ghost predicate IsRecord(start: int, log: seq<Message>, i: int)
    requires 0 <= i < |log|
  {
    start < log[i].amount && forall j | 0 <= j < i :: log[j].amount < log[i].amount
  }

  function Peak(start: int, log: seq<Message>): int
    decreases |log|
  {
    if log == [] then start
    else
      var rest := Peak(start, log[..|log| - 1]);
      if rest < log[|log| - 1].amount then log[|log| - 1].amount else rest
  }

  /** Peak is the least upper bound of the start and all amounts. */
  lemma {:induction false} PeakIsMaximum(start: int, log: seq<Message>)
    ensures start <= Peak(start, log)
    ensures forall i | 0 <= i < |log| :: log[i].amount <= Peak(start, log)
    ensures Peak(start, log) == start || exists i :: 0 <= i < |log| && log[i].amount == Peak(start, log)
    decreases |log|
  {
    if log == [] {
    } else {
      var init := log[..|log| - 1];
      PeakIsMaximum(start, init);
      assert forall i | 0 <= i < |init| :: log[i] == init[i];
      if Peak(start, init) != start && Peak(start, log) == Peak(start, init) {
        var i :| 0 <= i < |init| && init[i].amount == Peak(start, init);
        assert log[i].amount == Peak(start, log);
      }
    }
  }

  lemma {:induction false} ConsumeReachesPeak(auction: Auction, log: seq<Message>)
    requires auction.isOpen
    ensures Consume(auction, log).isOpen
    ensures Consume(auction, log).currentHighestBid == Peak(auction.currentHighestBid, log)
    decreases |log|
  {
    if log == [] {
    } else {
      ConsumeReachesPeak(auction, log[..|log| - 1]);
    }
  }

  /** Accepted bids are exactly the records of the log. */
  lemma AcceptedAreRecords(auction: Auction, log: seq<Message>, i: int)
    requires auction.isOpen && 0 <= i < |log|
    ensures Accepted(auction, log, i) <==> IsRecord(auction.currentHighestBid, log, i)
  {
    var before := log[..i];
    ConsumeReachesPeak(auction, before);
    PeakIsMaximum(auction.currentHighestBid, before);
    assert forall j | 0 <= j < i :: before[j] == log[j];
  }

  /** The highest bid becomes the peak, won by the first bidder to reach it; without a record nothing changes. */
  lemma {:induction false} EarliestPeakWins(auction: Auction, log: seq<Message>)
    requires auction.isOpen
    ensures var start, final := auction.currentHighestBid, Consume(auction, log);
            && final.isOpen
            && final.currentHighestBid == Peak(start, log)
            && (Peak(start, log) == start ==> final == auction)
            && (start < Peak(start, log) ==>
                  exists i :: 0 <= i < |log| && log[i].amount == Peak(start, log)
                    && (forall j | 0 <= j < i :: log[j].amount < Peak(start, log))
                    && final.winnerId == Some(log[i].bidderId))
    decreases |log|
  {
    ConsumeReachesPeak(auction, log);
    var start := auction.currentHighestBid;
    if log == [] {
    } else {
      var n := |log| - 1;
      var init := log[..n];
      EarliestPeakWins(auction, init);
      PeakIsMaximum(start, init);
      assert forall j | 0 <= j < n :: init[j] == log[j];
      if Peak(start, init) < log[n].amount {
        assert Consume(auction, log).winnerId == Some(log[n].bidderId);
      } else if start < Peak(start, init) {
        var i :| 0 <= i < |init| && init[i].amount == Peak(start, init)
                 && (forall j | 0 <= j < i :: init[j].amount < Peak(start, init))
                 && Consume(auction, init).winnerId == Some(init[i].bidderId);
        assert log[i].amount == Peak(start, log) && Consume(auction, log).winnerId == Some(log[i].bidderId);
      }
    }
  }

  /** The bid transaction keeps the row consistent, whatever the message. */
  lemma ProcessKeepsConsistent(auction: Auction, m: Message)
    requires Consistent(auction)
    ensures Consistent(Process(auction, m))
  {
    if Rejection(auction, m).None? {
      var bids := Commit(auction, m).bids;
      assert forall i | 0 <= i < |auction.bids| :: bids[i] == auction.bids[i];
    }
  }
}
