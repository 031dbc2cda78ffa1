/** The gateway: guard, throttle and handlers, over the services, Redis and the Kafka producer. */
module Gateway {
  import opened AuctionRows
  import opened Keyspace
  import opened Protocol
  import opened RedisClient
  import opened Registry
  import opened Services
  import opened Wrappers
  import IpKeys
  import Partitions
  import Sequential
  import Throttle

  // ----- Kafka -----

  datatype Topic = BidEvents | AuctionNotifications | AuditLogs

  datatype Record =
    | BidRecord(m: Message)
    | RateLimitExceeded(username: string, auctionId: AuctionId, socketId: string)
    | MaxUserSockets(username: string, ip: string)
    | MaxIpSockets(ip: string)
    | NoAuctionRoom(auctionId: AuctionId, username: string, ip: string)

  type TopicLog = map<(Topic, int), seq<Record>>

  function PartitionOf(log: TopicLog, topic: Topic, partition: int): seq<Record> {
    if (topic, partition) in log then log[(topic, partition)] else []
  }

  /** The bids of a partition, in order. */
  function BidsIn(records: seq<Record>): seq<Message>
    decreases |records|
  {
    if records == [] then []
    else
      var last := records[|records| - 1];
      BidsIn(records[..|records| - 1]) + if last.BidRecord? then [last.m] else []
  }

  lemma BidsInOneMore(records: seq<Record>, record: Record)
    ensures BidsIn(records + [record]) == BidsIn(records) + if record.BidRecord? then [record.m] else []
  {
    assert (records + [record])[..|records|] == records;
  }

  /** What the bid consumers read. */
  function BidLog(log: TopicLog): Partitions.Log {
    partition => BidsIn(PartitionOf(log, BidEvents, partition))
  }

  ghost predicate OnlyBids(records: seq<Record>) {
    forall i | 0 <= i < |records| :: records[i].BidRecord?
  }

  /** The bid topic holds bids only, each in the partition that its auction numbers. */
  ghost predicate BidsRouted(log: TopicLog) {
    && (forall p :: OnlyBids(PartitionOf(log, BidEvents, p)))
    && Partitions.Routed(BidLog(log))
  }

  /** A bid appended to a partition is what that partition's consumer reads next. */
  lemma AppendExtends(before: TopicLog, after: TopicLog, partition: int, m: Message)
    requires forall p ::
               PartitionOf(after, BidEvents, p)
               == PartitionOf(before, BidEvents, p) + if p == partition then [BidRecord(m)] else []
    ensures forall p :: BidLog(after)(p) == BidLog(before)(p) + if p == partition then [m] else []
  {
    forall p ensures BidLog(after)(p) == BidLog(before)(p) + if p == partition then [m] else [] {
      var records := PartitionOf(before, BidEvents, p);
      if p == partition {
        BidsInOneMore(records, BidRecord(m));
      } else {
        assert PartitionOf(after, BidEvents, p) == records;
      }
    }
  }

  /** Appended to its own auction's partition, it keeps the log routed. */
  lemma AppendKeepsRouted(before: TopicLog, after: TopicLog, m: Message)
    requires BidsRouted(before)
    requires forall p ::
               PartitionOf(after, BidEvents, p)
               == PartitionOf(before, BidEvents, p) + if p == m.auctionId then [BidRecord(m)] else []
    ensures BidsRouted(after)
  {
    hide PartitionOf, BidsIn;
    AppendExtends(before, after, m.auctionId, m);
    forall p ensures OnlyBids(PartitionOf(after, BidEvents, p)) {
      assert OnlyBids(PartitionOf(before, BidEvents, p));
    }
  }

  lemma UntouchedStaysRouted(before: TopicLog, after: TopicLog)
    requires BidsRouted(before)
    requires forall p :: PartitionOf(after, BidEvents, p) == PartitionOf(before, BidEvents, p)
    ensures BidsRouted(after)
  {
    forall p ensures OnlyBids(PartitionOf(after, BidEvents, p)) && BidLog(after)(p) == BidLog(before)(p) {
      assert OnlyBids(PartitionOf(before, BidEvents, p));
    }
  }

  /** What the producer keeps is what confluence asks for: its log's consumers agree under any schedule. */
  lemma ProducedLogIsConfluent(
    log: TopicLog, s: Partitions.System, turns1: seq<Partitions.Turn>, turns2: seq<Partitions.Turn>
  )
    requires BidsRouted(log)
    requires forall id :: Partitions.OnlyFor(turns1, id) == Partitions.OnlyFor(turns2, id)
    ensures forall id :: Partitions.ViewOf(Partitions.Run(BidLog(log), s, turns1), id)
                         == Partitions.ViewOf(Partitions.Run(BidLog(log), s, turns2), id)
  {
    Partitions.PartitionConfluence(BidLog(log), s, turns1, turns2);
  }

  class KafkaProducerService {
    var log: TopicLog

    constructor ()
      ensures log == map[]
    {
      log := map[];
    }

    method Send(topic: Topic, partition: int, record: Record)
      modifies this
      ensures log == old(log)[(topic, partition) := PartitionOf(old(log), topic, partition) + [record]]
    {
      log := log[(topic, partition) := PartitionOf(log, topic, partition) + [record]];
    }

    /** A bid goes to the partition of its auction. */
    method Produce(topic: Topic, auctionId: AuctionId, m: Message)
      modifies this
      ensures forall t, p :: PartitionOf(log, t, p)
                == PartitionOf(old(log), t, p) + if t == topic && p == auctionId then [BidRecord(m)] else []
      ensures topic == BidEvents ==>
                forall p :: BidLog(log)(p) == BidLog(old(log))(p) + if p == auctionId then [m] else []
      ensures BidsRouted(old(log)) && m.auctionId == auctionId ==> BidsRouted(log)
    {
      Send(topic, auctionId, BidRecord(m));
      if topic == BidEvents {
        AppendExtends(old(log), log, auctionId, m);
        if BidsRouted(old(log)) && m.auctionId == auctionId {
          AppendKeepsRouted(old(log), log, m);
        }
      } else if BidsRouted(old(log)) {
        UntouchedStaysRouted(old(log), log);
      }
    }

    /** Everything else is audit, in partition 0. */
    method Audit(record: Record)
      modifies this
      ensures forall t, p :: PartitionOf(log, t, p)
                == PartitionOf(old(log), t, p) + if t == AuditLogs && p == 0 then [record] else []
      ensures BidsRouted(old(log)) ==> BidsRouted(log)
    {
      Send(AuditLogs, 0, record);
      if BidsRouted(old(log)) {
        UntouchedStaysRouted(old(log), log);
      }
    }
  }

  // ----- The connected client -----

  datatype User = User(sub: UserId, username: string)

  datatype Refusal = TooManyUserSockets | TooManyIpSockets | NoSuchAuction

  datatype ToClient =
    | ConnectionRejected(reason: Refusal)
    | OnlineUsersList(usernames: set<string>)
    | RoomState(auctionId: AuctionId, room: AuctionRoom)
    | AuctionEndRejected(auctionId: AuctionId, result: Sequential.EndResult)

  class Socket {
    const id: string
    const address: string
    var user: Option<User>
    var connected: bool
    var emitted: seq<ToClient>

    constructor (id: string, address: string)
      ensures this.id == id && this.address == address
      ensures user == None && connected && emitted == []
    {
      this.id := id;
      this.address := address;
      user := None;
      connected := true;
      emitted := [];
    }

    method Emit(message: ToClient)
      modifies this`emitted
      ensures emitted == old(emitted) + [message]
    {
      emitted := emitted + [message];
    }

    method Disconnect()
      modifies this`connected
      ensures !connected
    {
      connected := false;
    }
  }

  // ----- Connection guard -----

  class WsConnectionRateLimitGuard {
    const redis: RedisService
    const kafka: KafkaProducerService
    const maxPerUser: nat
    const maxPerIp: nat

    constructor (redis: RedisService, kafka: KafkaProducerService, maxPerUser: nat, maxPerIp: nat)
      ensures this.redis == redis && this.kafka == kafka && this.maxPerUser == maxPerUser && this.maxPerIp == maxPerIp
    {
      this.redis := redis;
      this.kafka := kafka;
      this.maxPerUser := maxPerUser;
      this.maxPerIp := maxPerIp;
    }

    /** `user` is what the token proves, if anything.  The guard only looks: it reserves nothing. */
    method CanActivate(client: Socket, user: Option<User>) returns (allowed: bool)
      modifies client, kafka
      ensures allowed <==>
              && (user.Some? ==> |MembersAt(redis.store, redis.now, UserSockets(user.value.username))| <= maxPerUser)
              && |MembersAt(redis.store, redis.now, IpSockets(IpKeys.NormalizeIp(client.address)))| <= maxPerIp
      ensures client.user == if user.Some? then user else old(client.user)
      ensures allowed ==> client.connected == old(client.connected) && client.emitted == old(client.emitted)
                          && kafka.log == old(kafka.log)
      // The user's limit is the first to be looked at.
      ensures !allowed ==>
                var ip := IpKeys.NormalizeIp(client.address);
                var forUser := user.Some?
                               && |MembersAt(redis.store, redis.now, UserSockets(user.value.username))| > maxPerUser;
                && !client.connected
                && client.emitted
                   == old(client.emitted)
                      + [ConnectionRejected(if forUser then TooManyUserSockets else TooManyIpSockets)]
                && forall t, p :: PartitionOf(kafka.log, t, p)
                     == PartitionOf(old(kafka.log), t, p)
                        + if t == AuditLogs && p == 0
                          then [if forUser then MaxUserSockets(user.value.username, ip) else MaxIpSockets(ip)]
                          else []
      ensures BidsRouted(old(kafka.log)) ==> BidsRouted(kafka.log)
    {
      var ip := IpKeys.NormalizeIp(client.address);
      if user.Some? {
        client.user := user;
        var userSockets := redis.GetSetMembersCount(UserSockets(user.value.username));
        if userSockets > maxPerUser {
          client.Emit(ConnectionRejected(TooManyUserSockets));
          kafka.Audit(MaxUserSockets(user.value.username, ip));
          client.Disconnect();
          return false;
        }
      }
      var ipSockets := redis.GetSetMembersCount(IpSockets(ip));
      if ipSockets > maxPerIp {
        client.Emit(ConnectionRejected(TooManyIpSockets));
        kafka.Audit(MaxIpSockets(ip));
        client.Disconnect();
        return false;
      }
      allowed := true;
    }
  }

  // ----- Bid throttle -----

  function BucketOf(ks: Keyspace, username: string): Throttle.Bucket {
    var key := BidTimestamps(username);
    if key in ks && ks[key].value.Stamps? then Throttle.Bucket(ks[key].value.stamps, ks[key].deadline)
    else Throttle.EMPTY
  }

  /** What pruning does to the stored set, as the commands state it. */
  ghost predicate Pruned(limits: Throttle.Limits, key: Key, before: Keyspace, after: Keyspace, now: int) {
    && StampsAt(after, now, key) == (set t | t in StampsAt(before, now, key) && !(0 <= t <= now - limits.window))
    && (key in after ==> key in before && after[key].deadline == before[key].deadline)
  }

  lemma PruningKeeps(limits: Throttle.Limits, username: string, before: Keyspace, after: Keyspace, now: int)
    requires Pruned(limits, BidTimestamps(username), before, after, now)
    requires BidTimestamps(username) in before ==> before[BidTimestamps(username)].value.Stamps?
    ensures StampsAt(after, now, BidTimestamps(username)) == Throttle.Kept(limits, BucketOf(before, username), now)
  {
    assert StampsAt(before, now, BidTimestamps(username)) == Throttle.LiveStamps(BucketOf(before, username), now);
  }

  /** A refused call leaves the pruned set under its old deadline. */
  lemma RefusalBucket(limits: Throttle.Limits, username: string, before: Keyspace, after: Keyspace, now: int)
    requires Pruned(limits, BidTimestamps(username), before, after, now)
    requires BidTimestamps(username) in before ==> before[BidTimestamps(username)].value.Stamps?
    requires 0 < |StampsAt(after, now, BidTimestamps(username))|
    ensures BucketOf(after, username)
            == Throttle.Bucket(StampsAt(after, now, BidTimestamps(username)), BucketOf(before, username).deadline)
  {
    hide Pruned;
    SomeStampMeansLive(after, now, BidTimestamps(username));
    PrunedDeadline(limits, username, before, after, now);
  }

  lemma SomeStampMeansLive(ks: Keyspace, now: int, key: Key)
    requires 0 < |StampsAt(ks, now, key)|
    ensures key in ks && ks[key].value == Stamps(StampsAt(ks, now, key))
  {
  }

  lemma PrunedDeadline(limits: Throttle.Limits, username: string, before: Keyspace, after: Keyspace, now: int)
    requires Pruned(limits, BidTimestamps(username), before, after, now) && BidTimestamps(username) in after
    requires BidTimestamps(username) in before ==> before[BidTimestamps(username)].value.Stamps?
    ensures after[BidTimestamps(username)].deadline == BucketOf(before, username).deadline
  {
  }

  lemma AdmissionBucket(username: string, ks: Keyspace, stamps: set<int>, deadline: Option<int>)
    ensures BucketOf(ks[BidTimestamps(username) := Entry(Stamps(stamps), deadline)], username)
            == Throttle.Bucket(stamps, deadline)
  {
  }

  lemma SameButFor(before: Keyspace, after: Keyspace, key: Key, entry: Entry)
    requires after - {key} == before - {key}
    ensures after[key := entry] == before[key := entry]
  {
    assert forall k | k != key :: (k in after <==> k in after - {key}) && (k in before <==> k in before - {key});
    assert forall k | k in after && k != key :: after[k] == (after - {key})[k];
    assert forall k | k in before && k != key :: before[k] == (before - {key})[k];
  }

  class BidThrottleInterceptor {
    const redis: RedisService
    const kafka: KafkaProducerService
    const maxBids: nat
    const window: nat

    constructor (redis: RedisService, kafka: KafkaProducerService, maxBids: nat, window: nat)
      ensures this.redis == redis && this.kafka == kafka && this.maxBids == maxBids && this.window == window
    {
      this.redis := redis;
      this.kafka := kafka;
      this.maxBids := maxBids;
      this.window := window;
    }

    function Limits(): Throttle.Limits
      requires 0 <= redis.ttl
    {
      Throttle.Limits(maxBids, window, redis.ttl)
    }

    method Intercept(username: string, socketId: string, auctionId: AuctionId) returns (admitted: bool)
      requires 0 < redis.ttl && Throttle.Valid(Limits())
      requires BidTimestamps(username) in redis.store ==> redis.store[BidTimestamps(username)].value.Stamps?
      modifies redis`store, kafka
      ensures admitted == Throttle.Admits(Limits(), BucketOf(old(redis.store), username), redis.now)
      ensures BucketOf(redis.store, username)
              == Throttle.Intercept(Limits(), BucketOf(old(redis.store), username), redis.now)
      ensures redis.store - {BidTimestamps(username)} == old(redis.store) - {BidTimestamps(username)}
      ensures var key := BidTimestamps(username);
              var kept := set t | t in StampsAt(old(redis.store), redis.now, key) && !(0 <= t <= redis.now - window);
              && (admitted <==> |kept| < maxBids)
              && (admitted ==>
                    redis.store
                    == old(redis.store)[key := Entry(Stamps(kept + {redis.now}), Some(redis.now + redis.ttl))])
      ensures admitted ==> kafka.log == old(kafka.log)
      ensures !admitted ==>
                forall t, p :: PartitionOf(kafka.log, t, p)
                  == PartitionOf(old(kafka.log), t, p)
                     + if t == AuditLogs && p == 0 then [RateLimitExceeded(username, auctionId, socketId)] else []
      ensures BidsRouted(old(kafka.log)) ==> BidsRouted(kafka.log)
    {
      hide Throttle.Kept, BucketOf, StampsAt;
      var key := BidTimestamps(username);
      var now := redis.now;
      redis.RemoveStamps(key, 0, now - window);
      ghost var pruned := redis.store;
      PruningKeeps(Limits(), username, old(redis.store), pruned, now);
      var count := redis.StampCount(key);
      if count >= maxBids {
        RefusalBucket(Limits(), username, old(redis.store), pruned, now);
        kafka.Audit(RateLimitExceeded(username, auctionId, socketId));
        return false;
      }
      AdmissionBucket(username, pruned, StampsAt(pruned, now, key) + {now}, Some(now + redis.ttl));
      SameButFor(old(redis.store), pruned, key,
                 Entry(Stamps(StampsAt(pruned, now, key) + {now}), Some(now + redis.ttl)));
      redis.AddStamp(key, now);
      admitted := true;
    }
  }

  // ----- Handlers -----

  class AuctionGateway {
    const auctionService: AuctionService
    const redis: RedisService
    const kafka: KafkaProducerService
    const throttle: BidThrottleInterceptor

    constructor (
      auctionService: AuctionService, redis: RedisService, kafka: KafkaProducerService,
      throttle: BidThrottleInterceptor
    )
      ensures this.auctionService == auctionService && this.redis == redis
          && this.kafka == kafka && this.throttle == throttle
    {
      this.auctionService := auctionService;
      this.redis := redis;
      this.kafka := kafka;
      this.throttle := throttle;
    }

    /** One append to the auction's partition of each topic; the bid topic gets exactly this bid, routed. */
    method HandlePlaceBid(client: Socket, auctionId: AuctionId, amount: int)
      requires client.user.Some?
      modifies kafka
      ensures var m := Message(auctionId, amount, client.user.value.sub, client.user.value.username, client.id);
              forall t, p :: PartitionOf(kafka.log, t, p)
                == PartitionOf(old(kafka.log), t, p) + if p == auctionId then [BidRecord(m)] else []
      ensures BidsRouted(old(kafka.log)) ==> BidsRouted(kafka.log)
    {
      var m := Message(auctionId, amount, client.user.value.sub, client.user.value.username, client.id);
      kafka.Produce(BidEvents, auctionId, m);
      kafka.Produce(AuctionNotifications, auctionId, m);
      kafka.Produce(AuditLogs, auctionId, m);
    }

    /** The placeBid message: the throttle decides whether the handler runs. */
    method OnPlaceBid(client: Socket, auctionId: AuctionId, amount: int) returns (admitted: bool)
      requires client.user.Some? && throttle.redis == redis && throttle.kafka == kafka
      requires 0 < redis.ttl && Throttle.Valid(throttle.Limits())
      requires var key := BidTimestamps(client.user.value.username);
               key in redis.store ==> redis.store[key].value.Stamps?
      modifies redis`store, kafka
      ensures admitted
              == Throttle.Admits(throttle.Limits(), BucketOf(old(redis.store), client.user.value.username), redis.now)
      ensures BucketOf(redis.store, client.user.value.username)
              == Throttle.Intercept(throttle.Limits(), BucketOf(old(redis.store), client.user.value.username),
                                 redis.now)
      ensures admitted ==>
                var m := Message(auctionId, amount, client.user.value.sub, client.user.value.username, client.id);
                forall t, p :: PartitionOf(kafka.log, t, p)
                  == PartitionOf(old(kafka.log), t, p) + if p == auctionId then [BidRecord(m)] else []
      ensures !admitted ==>
                var record := RateLimitExceeded(client.user.value.username, auctionId, client.id);
                forall t, p :: PartitionOf(kafka.log, t, p)
                  == PartitionOf(old(kafka.log), t, p) + if t == AuditLogs && p == 0 then [record] else []
      ensures BidsRouted(old(kafka.log)) ==> BidsRouted(kafka.log)
    {
      admitted := throttle.Intercept(client.user.value.username, client.id, auctionId);
      if admitted {
        HandlePlaceBid(client, auctionId, amount);
      }
    }

    /** The client sees the room as it was before it joined, then joins it, then sees the auction. */
    method HandleJoinAuction(client: Socket, auctionId: AuctionId)
      requires client.user.Some? && auctionService.redis == redis && 0 < redis.ttl
      modifies client`emitted, client`connected, redis`store, redis`published, kafka
      ensures auctionId in auctionService.db.auctions ==>
                var before := old(SharedAt(auctionService.db, redis, auctionId));
                var (_, room) := Sequential.GetAuctionState(auctionService.db.usernames, before);
                && client.emitted == old(client.emitted)
                     + [OnlineUsersList(MembersAt(old(redis.store), redis.now, OnlineUsers(auctionId))),
                        RoomState(auctionId, room)]
                && client.connected == (old(client.connected) && room.isOpen)
                && RoomJoined(Client(client.user.value.username, IpKeys.NormalizeIp(client.address)),
                              client.id, auctionId,
                              old(redis.store), redis.store, redis.now)
                && redis.published
                   == old(redis.published)
                      + [SessionUpdate(Presence(Some(auctionId), client.user.value.username, true))]
                && RoomAt(redis.store, redis.now, AuctionState(auctionId)) == Some(room)
                && kafka.log == old(kafka.log)
                && var key, was := AuctionState(auctionId), old(redis.store);
                   var row := auctionService.db.auctions[auctionId];
                   room == if key in was && was[key].value.Room?
                              && (was[key].deadline.Some? ==> redis.now < was[key].deadline.value)
                           then was[key].value.room
                           else AuctionRoom(
                                  row.currentHighestBid, row.winnerId,
                                  if row.winnerId.Some? then Some(auctionService.db.usernames(row.winnerId.value))
                                  else None,
                                  row.isOpen)
      ensures auctionId !in auctionService.db.auctions
              && RoomAt(old(redis.store), redis.now, AuctionState(auctionId)) == None ==>
                && !client.connected && client.emitted == old(client.emitted) + [ConnectionRejected(NoSuchAuction)]
                && redis.store == old(redis.store) && redis.published == old(redis.published)
                && (forall t, p :: PartitionOf(kafka.log, t, p)
                      == PartitionOf(old(kafka.log), t, p)
                         + if t == AuditLogs && p == 0
                           then [NoAuctionRoom(auctionId, client.user.value.username,
                                            IpKeys.NormalizeIp(client.address))]
                           else [])
    {
      hide Registered, RoomJoined, EventsOf, BidsRouted, BidLog, PartitionOf, IpKeys.NormalizeIp,
           Sequential.GetAuctionState;
      var username, ip := client.user.value.username, IpKeys.NormalizeIp(client.address);
      var room := auctionService.GetAuctionState(auctionId);
      if room.None? {
        client.Emit(ConnectionRejected(NoSuchAuction));
        client.Disconnect();
        kafka.Audit(NoAuctionRoom(auctionId, username, ip));
        return;
      }
      ghost var cached := redis.store;
      CacheLeavesSets(auctionId, old(redis.store), cached, redis.now);
      var online := redis.OnlineInAuction(auctionId);
      client.Emit(OnlineUsersList(online));
      redis.RegisterSocket(username, client.id, ip, auctionId);
      RegistrationJoinsRoom(Client(username, ip), client.id, auctionId, old(redis.store), cached, redis.now, redis.ttl);
      RegistrationLeavesCache(cached, redis.now, redis.ttl, username, client.id, ip, auctionId);
      client.Emit(RoomState(auctionId, room.value));
      if !room.value.isOpen {
        client.Disconnect();
      }
    }

    method HandleDisconnect(client: Socket)
      modifies client, redis`store, redis`published
      ensures !client.connected
      ensures redis.store == Unregistered(old(redis.store), redis.now, client.id)
      ensures redis.published
              == old(redis.published) + SessionUpdates(OfflineEvents(old(redis.store), redis.now, client.id))
      ensures OutsideUntouched(old(redis.store), redis.store)
      ensures client.emitted == old(client.emitted) && client.user == old(client.user)
    {
      client.Disconnect();
      RegistryLeavesOutside(redis.store, redis.now, redis.ttl, "", client.id, "", 0);
      redis.UnregisterSocket(client.id);
    }

    /** The caller is told only of a refusal; everyone else hears of the close. */
    method HandleEndAuction(client: Socket, auctionId: AuctionId)
      requires auctionService.redis == redis && 0 < redis.ttl
      modifies client, auctionService.db, redis`store, redis`published
      ensures auctionService.db.auctions.Keys == old(auctionService.db.auctions.Keys)
      ensures auctionId in old(auctionService.db.auctions) ==>
                && auctionId in auctionService.db.auctions
                && SharedAt(auctionService.db, redis, auctionId)
                   == Sequential.EndAuction(auctionService.db.usernames,
                                             old(SharedAt(auctionService.db, redis, auctionId))).0
      ensures forall other | other in auctionService.db.auctions && other != auctionId ::
                SharedAt(auctionService.db, redis, other) == old(SharedAt(auctionService.db, redis, other))
      ensures OnlyCacheOf(auctionId, old(redis.store), redis.store)
      ensures auctionId !in old(auctionService.db.auctions) ==>
                redis.store == old(redis.store) && redis.published == old(redis.published)
      ensures client.connected == old(client.connected) && client.user == old(client.user)
      ensures var rows := old(auctionService.db.auctions);
              client.emitted
              == old(client.emitted)
                 + if auctionId !in rows then [AuctionEndRejected(auctionId, Sequential.NotFound)]
                   else if !rows[auctionId].isOpen then [AuctionEndRejected(auctionId, Sequential.WasClosed)]
                   else []
    {
      var result := auctionService.EndAuction(auctionId);
      if !result.Ended? {
        client.Emit(AuctionEndRejected(auctionId, result));
      }
    }
  }

  /** Every set has gained what the join brings and nothing else, and the socket's forward keys name this auction. */
  ghost predicate RoomJoined(c: Client, id: string, auctionId: AuctionId, before: Keyspace, after: Keyspace, now: int) {
    && (forall k: Key | !IsForward(k) && !k.AuctionState? ::
          MembersAt(after, now, k) == MembersAt(before, now, k) + JoinGains(c, id, auctionId, k))
    && TextAt(after, now, SocketUsername(id)) == Some(c.username)
    && TextAt(after, now, SocketIp(id)) == Some(c.ip)
    && NumberAt(after, now, SocketAuctionId(id)) == Some(auctionId)
  }

  lemma RegistrationJoinsRoom(
    c: Client, id: string, auctionId: AuctionId, before: Keyspace, cached: Keyspace, now: int, ttl: int
  )
    requires 0 < ttl
    requires forall k: Key | !k.AuctionState? :: MembersAt(cached, now, k) == MembersAt(before, now, k)
    ensures RoomJoined(c, id, auctionId, before, Registered(cached, now, ttl, c.username, id, c.ip, auctionId), now)
  {
    hide Registered;
    JoinEffect(cached, now, ttl, c, id, auctionId);
  }

  lemma RegistrationLeavesCache(
    ks: Keyspace, now: int, ttl: int, username: string, socketId: string, ip: string, auctionId: AuctionId
  )
    ensures RoomAt(Registered(ks, now, ttl, username, socketId, ip, auctionId), now, AuctionState(auctionId))
            == RoomAt(ks, now, AuctionState(auctionId))
  {
  }

  /** Filling an auction's cache leaves every set as it was. */
  lemma CacheLeavesSets(id: AuctionId, before: Keyspace, after: Keyspace, now: int)
    requires OnlyCacheOf(id, before, after)
    ensures forall k: Key | !k.AuctionState? :: MembersAt(after, now, k) == MembersAt(before, now, k)
  {
    forall k: Key | !k.AuctionState? ensures MembersAt(after, now, k) == MembersAt(before, now, k) {
      assert k in after <==> k in after - {AuctionState(id)};
      assert k in before <==> k in before - {AuctionState(id)};
      assert k in after ==> after[k] == (after - {AuctionState(id)})[k];
    }
  }
}
