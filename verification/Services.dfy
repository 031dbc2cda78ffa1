/**
 The services as they run: the bid consumer and the auction service over one database and one Redis.
 Each operation is tied to the sequential operation it carries out on its own auction; other auctions are untouched.
 */
module Services {
  import opened AuctionRows
  import opened Keyspace
  import opened Protocol
  import opened RedisClient
  import opened Wrappers
  import Sequential

  class Database {
    const usernames: Usernames
    var auctions: map<AuctionId, Auction>

    constructor (usernames: Usernames, auctions: map<AuctionId, Auction>)
      ensures this.usernames == usernames && this.auctions == auctions
    {
      this.usernames := usernames;
      this.auctions := auctions;
    }

    method FindAuction(id: AuctionId) returns (auction: Option<Auction>)
      ensures auction == if id in auctions then Some(auctions[id]) else None
    {
      auction := if id in auctions then Some(auctions[id]) else None;
    }

    method CreateBid(id: AuctionId, bid: Bid)
      requires id in auctions
      modifies this
      ensures auctions == old(auctions)[id := old(auctions)[id].(bids := old(auctions)[id].bids + [bid])]
    {
      auctions := auctions[id := auctions[id].(bids := auctions[id].bids + [bid])];
    }

    method RecordHighest(id: AuctionId, amount: int, winnerId: UserId)
      requires id in auctions
      modifies this
      ensures auctions == old(auctions)[id := old(auctions)[id].(
                currentHighestBid := amount, winnerId := Some(winnerId), version := old(auctions)[id].version + 1)]
    {
      var version := auctions[id].version + 1;
      auctions := auctions[id := auctions[id].(
                    currentHighestBid := amount, winnerId := Some(winnerId), version := version)];
    }

    /** The update that closes an auction, with its top bid and that bid's user. */
    method CloseAuction(id: AuctionId) returns (top: Option<Bid>)
      requires id in auctions
      modifies this
      ensures auctions == old(auctions)[id := Close(old(auctions)[id])]
      ensures top == if auctions[id].bids == [] then None else Some(TopBid(auctions[id].bids))
      ensures top.Some? ==>
                top.value in auctions[id].bids &&
                forall bid | bid in auctions[id].bids :: bid.amount <= top.value.amount
    {
      auctions := auctions[id := auctions[id].(isOpen := false)];
      if auctions[id].bids != [] {
        TopBidIsHighest(auctions[id].bids);
      }
      top := if auctions[id].bids == [] then None else Some(TopBid(auctions[id].bids));
    }
  }

  ghost predicate IsTop(bids: seq<Bid>, top: Bid) {
    top in bids && forall bid | bid in bids :: bid.amount <= top.amount
  }

  /** The events published for one auction, rejections included. */
  function EventsOf(published: seq<Publication>, id: AuctionId): seq<Event>
    decreases |published|
  {
    if published == [] then []
    else
      var last := published[|published| - 1];
      EventsOf(published[..|published| - 1], id)
      + if last.AuctionEvent? && last.auctionId == id then [last.event] else []
  }

  lemma EventsOfOneMore(published: seq<Publication>, p: Publication, id: AuctionId)
    ensures EventsOf(published + [p], id)
            == EventsOf(published, id) + if p.AuctionEvent? && p.auctionId == id then [p.event] else []
  {
    assert (published + [p])[..|published|] == published;
  }

  /** What bids on an auction that does not exist are answered: a rejection to each socket named. */
  function NotFoundAnswers(log: seq<Message>): seq<Event>
    decreases |log|
  {
    if log == [] then []
    else NotFoundAnswers(log[..|log| - 1]) + RejectionEvents(log[|log| - 1], AuctionNotFound)
  }

  lemma NotFoundOneMore(log: seq<Message>, n: nat)
    requires n < |log|
    ensures NotFoundAnswers(log[..n + 1]) == NotFoundAnswers(log[..n]) + RejectionEvents(log[n], AuctionNotFound)
  {
    assert log[..n + 1][..n] == log[..n];
  }

  /** What the operations on one auction share, read off the database and Redis. */
  function SharedAt(db: Database, redis: RedisService, id: AuctionId): Sequential.Shared
    requires id in db.auctions
    reads db, redis
  {
    Sequential.Shared(
      db.auctions[id],
      RoomAt(redis.store, redis.now, AuctionState(id)),
      EventsOf(redis.published, id))
  }

  /** Nothing but this auction's cache entry differs. */
  ghost predicate OnlyCacheOf(id: AuctionId, before: Keyspace, after: Keyspace) {
    after - {AuctionState(id)} == before - {AuctionState(id)}
  }

  class BidEventsConsumerService {
    const db: Database
    const redis: RedisService

    constructor (db: Database, redis: RedisService)
      ensures this.db == db && this.redis == redis
    {
      this.db := db;
      this.redis := redis;
    }

    /** The transaction: read, check, write both tables. */
    method RunTransaction(m: Message) returns (error: Option<ErrorCode>, isOpen: bool)
      modifies db
      ensures m.auctionId !in old(db.auctions) ==> error == Some(AuctionNotFound) && db.auctions == old(db.auctions)
      ensures m.auctionId in old(db.auctions) ==>
                && error == Rejection(old(db.auctions)[m.auctionId], m)
                && (error.None? ==> isOpen)
                && db.auctions == old(db.auctions)[m.auctionId := Process(old(db.auctions)[m.auctionId], m)]
    {
      var auction := db.FindAuction(m.auctionId);
      if auction.None? {
        return Some(AuctionNotFound), false;
      }
      isOpen := auction.value.isOpen;
      if !auction.value.isOpen {
        return Some(AuctionClosed), isOpen;
      }
      if m.amount <= auction.value.currentHighestBid {
        return Some(BidTooLow), isOpen;
      }
      db.CreateBid(m.auctionId, Bid(m.amount, m.bidderId));
      db.RecordHighest(m.auctionId, m.amount, m.bidderId);
      error := None;
    }

    method PlaceBid(m: Message)
      requires 0 < redis.ttl
      modifies db, redis`store, redis`published
      ensures db.auctions.Keys == old(db.auctions.Keys)
      ensures m.auctionId in db.auctions ==>
                SharedAt(db, redis, m.auctionId) == Sequential.PlaceBid(old(SharedAt(db, redis, m.auctionId)), m)
      ensures forall id | id in db.auctions && id != m.auctionId ::
                SharedAt(db, redis, id) == old(SharedAt(db, redis, id))
      ensures OnlyCacheOf(m.auctionId, old(redis.store), redis.store)
      ensures m.auctionId !in db.auctions ==>
                && redis.store == old(redis.store)
                && EventsOf(redis.published, m.auctionId)
                   == old(EventsOf(redis.published, m.auctionId)) + RejectionEvents(m, AuctionNotFound)
      // Accepted: both tables, the announcement with the bidder's name, and the cache entry with its deadline.
      ensures var rows := old(db.auctions);
              m.auctionId in rows && rows[m.auctionId].isOpen && rows[m.auctionId].currentHighestBid < m.amount ==>
                && db.auctions == rows[m.auctionId := Auction(
                     m.amount, Some(m.bidderId), true, rows[m.auctionId].version + 1,
                     rows[m.auctionId].bids + [Bid(m.amount, m.bidderId)])]
                && redis.published
                   == old(redis.published)
                      + [AuctionEvent(m.auctionId, NewBid(m.amount, m.bidderId, m.bidderUsername))]
                && redis.store
                   == old(redis.store)[AuctionState(m.auctionId) := Entry(
                        Room(AuctionRoom(m.amount, Some(m.bidderId), Some(m.bidderUsername), true)),
                        Some(redis.now + redis.ttl))]
      // Refused: nothing but the reason, to the socket if one is named.
      ensures var rows := old(db.auctions);
              var code := if m.auctionId !in rows then AuctionNotFound
                          else if !rows[m.auctionId].isOpen then AuctionClosed else BidTooLow;
              !(m.auctionId in rows && rows[m.auctionId].isOpen && rows[m.auctionId].currentHighestBid < m.amount) ==>
                && db.auctions == rows && redis.store == old(redis.store)
                && redis.published
                   == old(redis.published)
                      + if m.socketId == "" then []
                        else [AuctionEvent(m.auctionId, BidRejected(code, m.socketId))]
    {
      var error, isOpen := RunTransaction(m);
      if error.None? {
        Announce(AuctionEvent(m.auctionId, NewBid(m.amount, m.bidderId, m.bidderUsername)));
        redis.SetCache(AuctionState(m.auctionId),
                       AuctionRoom(m.amount, Some(m.bidderId), Some(m.bidderUsername), isOpen));
      } else if m.socketId != "" {
        Announce(AuctionEvent(m.auctionId, BidRejected(error.value, m.socketId)));
      }
    }

    method Announce(p: Publication)
      requires p.AuctionEvent?
      modifies redis`published
      ensures redis.published == old(redis.published) + [p]
      ensures forall id :: EventsOf(redis.published, id)
                           == EventsOf(old(redis.published), id) + if p.auctionId == id then [p.event] else []
    {
      redis.Publish(p);
      forall id ensures EventsOf(redis.published, id)
                        == EventsOf(old(redis.published), id) + if p.auctionId == id then [p.event] else []
      {
        EventsOfOneMore(old(redis.published), p, id);
      }
    }

    /** The consumer's loop over one partition: each message is awaited before the next. */
    method ConsumePartition(id: AuctionId, log: seq<Message>)
      requires 0 < redis.ttl
      requires forall i | 0 <= i < |log| :: log[i].auctionId == id
      modifies db, redis`store, redis`published
      ensures db.auctions.Keys == old(db.auctions.Keys)
      ensures id in db.auctions ==>
                SharedAt(db, redis, id) == Sequential.PlaceBids(old(SharedAt(db, redis, id)), log)
      ensures forall other | other in db.auctions && other != id ::
                SharedAt(db, redis, other) == old(SharedAt(db, redis, other))
      ensures OnlyCacheOf(id, old(redis.store), redis.store)
      ensures id !in db.auctions ==>
                && redis.store == old(redis.store)
                && EventsOf(redis.published, id) == old(EventsOf(redis.published, id)) + NotFoundAnswers(log)
    {
      hide Sequential.PlaceBid;
      var offset := 0;
      while offset < |log|
        invariant 0 <= offset <= |log|
        invariant db.auctions.Keys == old(db.auctions.Keys)
        invariant id in db.auctions ==>
                    SharedAt(db, redis, id) == Sequential.PlaceBids(old(SharedAt(db, redis, id)), log[..offset])
        invariant forall other | other in db.auctions && other != id ::
                    SharedAt(db, redis, other) == old(SharedAt(db, redis, other))
        invariant OnlyCacheOf(id, old(redis.store), redis.store)
        invariant id !in db.auctions ==>
                    && redis.store == old(redis.store)
                    && EventsOf(redis.published, id)
                       == old(EventsOf(redis.published, id)) + NotFoundAnswers(log[..offset])
      {
        PlaceBid(log[offset]);
        NotFoundOneMore(log, offset);
        if id in db.auctions {
          Sequential.PlaceBidsOneMore(old(SharedAt(db, redis, id)), log, offset);
        }
        offset := offset + 1;
      }
      assert log[..|log|] == log;
    }
  }

  class AuctionService {
    const db: Database
    const redis: RedisService

    constructor (db: Database, redis: RedisService)
      ensures this.db == db && this.redis == redis
    {
      this.db := db;
      this.redis := redis;
    }

    /** None is the answer that the auction does not exist; it is not cached. */
    method GetAuctionState(id: AuctionId) returns (room: Option<AuctionRoom>)
      requires 0 < redis.ttl
      modifies redis`store
      ensures OnlyCacheOf(id, old(redis.store), redis.store)
      ensures id in db.auctions ==>
                (SharedAt(db, redis, id), room)
                == (var (shared, answer) := Sequential.GetAuctionState(db.usernames, old(SharedAt(db, redis, id)));
                    (shared, Some(answer)))
      ensures id !in db.auctions ==>
                && redis.store == old(redis.store)
                && room == RoomAt(redis.store, redis.now, AuctionState(id))
      // A live entry is answered; otherwise the row and its winner's name are, and are stored for one time to live.
      ensures var key, was := AuctionState(id), old(redis.store);
              var hit := key in was && was[key].value.Room?
                         && (was[key].deadline.Some? ==> redis.now < was[key].deadline.value);
              && (hit ==> room == Some(was[key].value.room) && redis.store == was)
              && (!hit && id in db.auctions ==>
                    var row := db.auctions[id];
                    && room == Some(AuctionRoom(
                         row.currentHighestBid, row.winnerId,
                         if row.winnerId.Some? then Some(db.usernames(row.winnerId.value)) else None, row.isOpen))
                    && redis.store == was[key := Entry(Room(room.value), Some(redis.now + redis.ttl))])
              && (!hit && id !in db.auctions ==> room == None && redis.store == was)
    {
      room := redis.GetCache(AuctionState(id));
      if room.Some? {
        return;
      }
      var auction := db.FindAuction(id);
      if auction.None? {
        return;
      }
      var winnerUsername: Option<string> := None;
      if auction.value.winnerId.Some? {
        winnerUsername := Some(db.usernames(auction.value.winnerId.value));
      }
      room := Some(AuctionRoom(
        auction.value.currentHighestBid, auction.value.winnerId, winnerUsername, auction.value.isOpen));
      redis.SetCache(AuctionState(id), room.value);
    }

    method EndAuction(id: AuctionId) returns (result: Sequential.EndResult)
      requires 0 < redis.ttl
      modifies db, redis`store, redis`published
      ensures db.auctions.Keys == old(db.auctions.Keys)
      ensures id in db.auctions ==>
                (SharedAt(db, redis, id), result) == Sequential.EndAuction(db.usernames, old(SharedAt(db, redis, id)))
      ensures forall other | other in db.auctions && other != id ::
                SharedAt(db, redis, other) == old(SharedAt(db, redis, other))
      ensures OnlyCacheOf(id, old(redis.store), redis.store)
      ensures id !in db.auctions ==>
                result == Sequential.NotFound && redis.store == old(redis.store)
                && redis.published == old(redis.published)
      // Which answer, and that a refusal changes nothing.
      ensures result.NotFound? <==> id !in old(db.auctions)
      ensures result.WasClosed? <==> id in old(db.auctions) && !old(db.auctions)[id].isOpen
      ensures !result.Ended? ==>
                && db.auctions == old(db.auctions) && redis.store == old(redis.store)
                && redis.published == old(redis.published)
      // The close: the row, the announcement, the cache entry with its deadline, and who has won.
      ensures result.Ended? ==>
                && var row, w := old(db.auctions)[id], result.winning;
                && db.auctions == old(db.auctions)[id := row.(isOpen := false)]
                && redis.published == old(redis.published) + [AuctionEvent(id, AuctionEnd(w))]
                && redis.store == old(redis.store)[AuctionState(id) := Entry(
                     Room(AuctionRoom(w.amount, w.userId, w.username, false)), Some(redis.now + redis.ttl))]
                && (row.bids == [] ==> w == Winning(0, None, None))
                && (row.bids != [] ==>
                      exists bid ::
                        IsTop(row.bids, bid)
                        && w == Winning(bid.amount, Some(bid.userId), Some(db.usernames(bid.userId))))
    {
      var auction := db.FindAuction(id);
      if auction.None? {
        return Sequential.NotFound;
      }
      if !auction.value.isOpen {
        return Sequential.WasClosed;
      }
      var top := db.CloseAuction(id);
      var winning := Winning(0, None, None);
      if top.Some? {
        assert IsTop(old(db.auctions)[id].bids, top.value);
        winning := Winning(top.value.amount, Some(top.value.userId), Some(db.usernames(top.value.userId)));
      }
      var event := AuctionEvent(id, AuctionEnd(winning));
      forall other ensures EventsOf(redis.published + [event], other)
                           == EventsOf(redis.published, other) + if id == other then [event.event] else []
      {
        EventsOfOneMore(redis.published, event, other);
      }
      redis.Publish(event);
      redis.SetCache(AuctionState(id), AuctionRoom(winning.amount, winning.userId, winning.username, false));
      result := Sequential.Ended(winning);
    }
  }
}
