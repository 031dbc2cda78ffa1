/** The Redis service: cache, registry and sorted-set operations as command sequences on one keyspace. */
module RedisClient {
  import opened AuctionRows
  import opened Keyspace
  import opened Protocol
  import opened Registry
  import opened Wrappers

  datatype Publication =
    | AuctionEvent(auctionId: AuctionId, event: Event)
    | SessionUpdate(presence: Presence)

  function SessionUpdates(presence: seq<Presence>): seq<Publication> {
    seq(|presence|, i requires 0 <= i < |presence| => SessionUpdate(presence[i]))
  }

  /** SADD with EXPIRE. */
  function Added(ks: Keyspace, now: int, ttl: int, key: Key, member: string): Keyspace {
    ks[key := Entry(Members(MembersAt(ks, now, key) + {member}), Some(now + ttl))]
  }

  /** The join's commands in order make the one simultaneous update. */
  lemma JoinCommands(
    ks: Keyspace, now: int, ttl: int, username: string, socketId: string, ip: string, auctionId: AuctionId
  )
    ensures var ks1 := Added(ks, now, ttl, IpSockets(ip), socketId);
            var ks2 := Added(SetEx(ks1, now, SocketIp(socketId), Text(ip), ttl),
                             now, ttl, UserSockets(username), socketId);
            var ks3 := SetEx(ks2, now, SocketUsername(socketId), Text(username), ttl);
            var ks4 := Added(SetEx(ks3, now, SocketAuctionId(socketId), Number(auctionId), ttl),
                             now, ttl, OnlineUsers(auctionId), username);
            Added(ks4, now, ttl, UserInAuction(username, auctionId), socketId)
            == Registered(ks, now, ttl, username, socketId, ip, auctionId)
  {
    var ks1 := Added(ks, now, ttl, IpSockets(ip), socketId);
    var ks2 := Added(SetEx(ks1, now, SocketIp(socketId), Text(ip), ttl), now, ttl, UserSockets(username), socketId);
    var ks3 := SetEx(ks2, now, SocketUsername(socketId), Text(username), ttl);
    var ks4 := Added(SetEx(ks3, now, SocketAuctionId(socketId), Number(auctionId), ttl),
                     now, ttl, OnlineUsers(auctionId), username);
    assert MembersAt(ks1, now, UserSockets(username)) == MembersAt(ks, now, UserSockets(username));
    assert MembersAt(ks3, now, OnlineUsers(auctionId)) == MembersAt(ks, now, OnlineUsers(auctionId));
    assert MembersAt(ks4, now, UserInAuction(username, auctionId))
           == MembersAt(ks, now, UserInAuction(username, auctionId));
  }

  /** The disconnect's commands, with each key deleted along the way, make the one transaction. */
  lemma DisconnectCommands(ks: Keyspace, now: int, socketId: string)
    requires IsRegistered(ks, now, socketId)
    ensures var username := TextAt(ks, now, SocketUsername(socketId)).value;
            var ks1 := Without(ks, now, IpKey(ks, now, socketId), socketId) - {SocketIp(socketId)};
            var ks2 := SRem(ks1, now, UserSockets(username), socketId)
                       - {SocketUsername(socketId)} - {SocketAuctionId(socketId)};
            Without(ks2, now, RoomKey(ks, now, socketId, username), socketId) == Removed(ks, now, socketId)
  {
    var username := TextAt(ks, now, SocketUsername(socketId)).value;
    var a := Without(ks, now, IpKey(ks, now, socketId), socketId);
    RemovalsCommute(a, now, UserSockets(username), socketId, {SocketIp(socketId)});
    var b := SRem(a, now, UserSockets(username), socketId);
    var room := RoomKey(ks, now, socketId, username);
    var gone := {SocketIp(socketId), SocketUsername(socketId), SocketAuctionId(socketId)};
    assert b - {SocketIp(socketId)} - {SocketUsername(socketId)} - {SocketAuctionId(socketId)} == b - gone;
    if room.Some? {
      RemovalsCommute(b, now, room.value, socketId, gone);
    }
  }

  lemma RemovalsCommute(ks: Keyspace, now: int, key: Key, member: string, gone: set<Key>)
    requires key !in gone
    ensures SRem(ks - gone, now, key, member) == SRem(ks, now, key, member) - gone
  {
  }

  class RedisService {
    const ttl: int
    var store: Keyspace
    var now: int
    var published: seq<Publication>

    constructor (ttl: int, now: int)
      requires 0 < ttl
      ensures this.ttl == ttl && this.now == now && store == map[] && published == []
    {
      this.ttl := ttl;
      this.now := now;
      store := map[];
      published := [];
    }

    method Publish(p: Publication)
      modifies this`published
      ensures published == old(published) + [p]
    {
      published := published + [p];
    }

    method GetCache(key: Key) returns (room: Option<AuctionRoom>)
      ensures room == RoomAt(store, now, key)
      ensures forall r :: room == Some(r) <==>
                && key in store && store[key].value == Room(r)
                && (store[key].deadline.Some? ==> now < store[key].deadline.value)
    {
      room := RoomAt(store, now, key);
    }

    method SetCache(key: Key, room: AuctionRoom)
      modifies this`store
      ensures store == old(store)[key := Entry(Room(room), Some(now + ttl))]
    {
      store := SetEx(store, now, key, Room(room), ttl);
    }

    /** One MULTI of eleven commands, then the announcement. */
    method RegisterSocket(username: string, socketId: string, ip: string, auctionId: AuctionId)
      modifies this`store, this`published
      ensures store == Registered(old(store), now, ttl, username, socketId, ip, auctionId)
      ensures published == old(published) + [SessionUpdate(Presence(Some(auctionId), username, true))]
    {
      ghost var was := store;
      AddMember(IpSockets(ip), socketId);
      store := SetEx(store, now, SocketIp(socketId), Text(ip), ttl);
      AddMember(UserSockets(username), socketId);
      store := SetEx(store, now, SocketUsername(socketId), Text(username), ttl);
      store := SetEx(store, now, SocketAuctionId(socketId), Number(auctionId), ttl);
      AddMember(OnlineUsers(auctionId), username);
      AddMember(UserInAuction(username, auctionId), socketId);
      JoinCommands(was, now, ttl, username, socketId, ip, auctionId);
      Publish(SessionUpdate(Presence(Some(auctionId), username, true)));
    }

    /** SADD and EXPIRE. */
    method AddMember(key: Key, member: string)
      modifies this`store
      ensures store == Added(old(store), now, ttl, key, member)
    {
      store := SAdd(store, now, key, member);
      store := ExpireIn(store, now, key, ttl);
    }

    method UnregisterSocket(socketId: string)
      modifies this`store, this`published
      ensures store == Unregistered(old(store), now, socketId)
      ensures published == old(published) + SessionUpdates(OfflineEvents(old(store), now, socketId))
    {
      var username := TextAt(store, now, SocketUsername(socketId));
      if username == None || username.value == "" {
        return;
      }
      var ip := TextAt(store, now, SocketIp(socketId));
      var auctionId := NumberAt(store, now, SocketAuctionId(socketId));

      // A missing address or auction would name a set that nothing is ever stored in.
      ghost var was := store;
      if ip.Some? {
        store := SRem(store, now, IpSockets(ip.value), socketId);
      }
      store := store - {SocketIp(socketId)};
      store := SRem(store, now, UserSockets(username.value), socketId);
      store := store - {SocketUsername(socketId)};
      store := store - {SocketAuctionId(socketId)};
      if auctionId.Some? {
        store := SRem(store, now, UserInAuction(username.value, auctionId.value), socketId);
      }
      DisconnectCommands(was, now, socketId);

      // SCARD
      var remaining :=
        if auctionId.Some? then |MembersAt(store, now, UserInAuction(username.value, auctionId.value))|
        else 0;
      if remaining == 0 {
        if auctionId.Some? {
          store := SRem(store, now, OnlineUsers(auctionId.value), username.value);
        }
        Publish(SessionUpdate(Presence(auctionId, username.value, false)));
      }
    }

    method OnlineInAuction(auctionId: AuctionId) returns (usernames: set<string>)
      ensures usernames == MembersAt(store, now, OnlineUsers(auctionId))
    {
      usernames := MembersAt(store, now, OnlineUsers(auctionId));
    }

    method GetSetMembersCount(key: Key) returns (count: nat)
      ensures count == |MembersAt(store, now, key)|
    {
      count := |MembersAt(store, now, key)|;
    }

    method RemoveStamps(key: Key, min: int, max: int)
      modifies this`store
      ensures StampsAt(store, now, key) == set t | t in StampsAt(old(store), now, key) && !(min <= t <= max)
      ensures store - {key} == old(store) - {key}
      ensures key in store ==> key in old(store) && store[key].deadline == old(store)[key].deadline
      ensures StampsAt(store, now, key) == {} ==> store == old(store) || key !in store
    {
      store := ZRemRangeByScore(store, now, key, min, max);
    }

    method StampCount(key: Key) returns (count: nat)
      ensures count == |StampsAt(store, now, key)|
    {
      count := |StampsAt(store, now, key)|;
    }

    /** ZADD and EXPIRE. */
    method AddStamp(key: Key, stamp: int)
      modifies this`store
      ensures store == old(store)[key := Entry(Stamps(StampsAt(old(store), now, key) + {stamp}), Some(now + ttl))]
    {
      store := ZAdd(store, now, key, stamp);
      store := ExpireIn(store, now, key, ttl);
    }
  }
}
