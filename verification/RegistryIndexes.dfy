/** The registry while nothing expires: the inverse sets say what the forward keys say, and presence can be replayed. */
module RegistryIndexes {
  import opened AuctionRows
  import opened Keyspace
  import opened Registry
  import opened RegistryExpiry
  import opened Wrappers

  predicate NoWait(ops: seq<Operation>) {
    forall i | 0 <= i < |ops| :: !ops[i].Wait?
  }

  ghost predicate NamesGiven(clients: Clients) {
    forall socketId :: clients(socketId).username != ""
  }

  ghost predicate AllFresh(ks: Keyspace, until: int) {
    forall k | k in ks :: ks[k].deadline == Some(until)
  }

  // A set lists a socket only if the forward keys do; a user is online where it still has sockets.

  ghost predicate UsersListed(clients: Clients, ks: Keyspace, now: int) {
    forall u, id | id in MembersAt(ks, now, UserSockets(u)) :: IsRegistered(ks, now, id) && clients(id).username == u
  }

  ghost predicate IpsListed(clients: Clients, ks: Keyspace, now: int) {
    forall ip, id | id in MembersAt(ks, now, IpSockets(ip)) :: IsRegistered(ks, now, id) && clients(id).ip == ip
  }

  ghost predicate RoomsListed(clients: Clients, ks: Keyspace, now: int) {
    forall u, a, id | id in MembersAt(ks, now, UserInAuction(u, a)) :: clients(id).username == u
  }

  ghost predicate OnlineListed(ks: Keyspace, now: int) {
    forall u, a :: u in MembersAt(ks, now, OnlineUsers(a)) <==> MembersAt(ks, now, UserInAuction(u, a)) != {}
  }

  /** A socket is listed for its user only in the auction its forward key names. */
  ghost predicate RoomsAgree(ks: Keyspace, now: int) {
    forall u, a, id | id in MembersAt(ks, now, UserInAuction(u, a)) ::
      IsRegistered(ks, now, id) && NumberAt(ks, now, SocketAuctionId(id)) == Some(a)
  }

  /** No forward key stands without the username key. */
  ghost predicate ForwardComplete(ks: Keyspace) {
    forall k | k in ks && IsForward(k) :: SocketUsername(k.socketId) in ks
  }

  ghost predicate Indexed(clients: Clients, ks: Keyspace, now: int, until: int) {
    && AllFresh(ks, until)
    && ForwardComplete(ks)
    && AllBacked(clients, ks, now)
    && UsersListed(clients, ks, now)
    && IpsListed(clients, ks, now)
    && RoomsListed(clients, ks, now)
    && OnlineListed(ks, now)
  }

  /** A join registers its socket and unregisters none. */
  lemma JoinRegisters(
    ks: Keyspace, after: Keyspace, now: int, until: int, c: Client, socketId: string, auctionId: AuctionId, id: string
  )
    requires Joined(ks, after, now, until, c, socketId, auctionId) && now < until && c.username != ""
    ensures IsRegistered(after, now, id) <==> IsRegistered(ks, now, id) || id == socketId
    ensures NumberAt(after, now, SocketAuctionId(id))
            == if id == socketId then Some(auctionId) else NumberAt(ks, now, SocketAuctionId(id))
  {
  }

  lemma JoinedSet(
    ks: Keyspace, after: Keyspace, now: int, until: int, c: Client, socketId: string, auctionId: AuctionId, k: Key
  )
    requires Joined(ks, after, now, until, c, socketId, auctionId) && !IsForward(k)
    ensures MembersAt(after, now, k) == MembersAt(ks, now, k) + JoinGains(c, socketId, auctionId, k)
  {
  }

  lemma JoinKeepsUsersListed(
    clients: Clients, ks: Keyspace, after: Keyspace, now: int, until: int, socketId: string, auctionId: AuctionId
  )
    requires UsersListed(clients, ks, now) && NamesGiven(clients) && now < until
    requires Joined(ks, after, now, until, clients(socketId), socketId, auctionId)
    ensures UsersListed(clients, after, now)
  {
    hide Joined, MembersAt, IsRegistered;
    forall u, id | id in MembersAt(after, now, UserSockets(u))
      ensures IsRegistered(after, now, id) && clients(id).username == u
    {
      JoinedSet(ks, after, now, until, clients(socketId), socketId, auctionId, UserSockets(u));
      JoinRegisters(ks, after, now, until, clients(socketId), socketId, auctionId, id);
    }
  }

  lemma JoinKeepsIpsListed(
    clients: Clients, ks: Keyspace, after: Keyspace, now: int, until: int, socketId: string, auctionId: AuctionId
  )
    requires IpsListed(clients, ks, now) && NamesGiven(clients) && now < until
    requires Joined(ks, after, now, until, clients(socketId), socketId, auctionId)
    ensures IpsListed(clients, after, now)
  {
    hide Joined, MembersAt, IsRegistered;
    forall ip, id | id in MembersAt(after, now, IpSockets(ip))
      ensures IsRegistered(after, now, id) && clients(id).ip == ip
    {
      JoinedSet(ks, after, now, until, clients(socketId), socketId, auctionId, IpSockets(ip));
      JoinRegisters(ks, after, now, until, clients(socketId), socketId, auctionId, id);
    }
  }

  lemma JoinKeepsOnlineListed(
    clients: Clients, ks: Keyspace, after: Keyspace, now: int, until: int, socketId: string, auctionId: AuctionId
  )
    requires RoomsListed(clients, ks, now) && OnlineListed(ks, now)
    requires Joined(ks, after, now, until, clients(socketId), socketId, auctionId)
    ensures RoomsListed(clients, after, now) && OnlineListed(after, now)
  {
    hide Joined, MembersAt;
    forall u, a
      ensures u in MembersAt(after, now, OnlineUsers(a)) <==> MembersAt(after, now, UserInAuction(u, a)) != {}
      ensures forall id | id in MembersAt(after, now, UserInAuction(u, a)) :: clients(id).username == u
    {
      JoinedSet(ks, after, now, until, clients(socketId), socketId, auctionId, OnlineUsers(a));
      JoinedSet(ks, after, now, until, clients(socketId), socketId, auctionId, UserInAuction(u, a));
    }
  }

  lemma JoinKeepsIndexed(
    clients: Clients, ks: Keyspace, after: Keyspace, now: int, until: int, socketId: string, auctionId: AuctionId
  )
    requires Indexed(clients, ks, now, until) && NamesGiven(clients) && now < until
    requires Joined(ks, after, now, until, clients(socketId), socketId, auctionId)
    ensures Indexed(clients, after, now, until)
  {
    assert AllFresh(after, until) && ForwardComplete(after);
    JoinKeepsBacked(clients, ks, after, now, until, socketId, auctionId);
    hide Joined, AllBacked, UsersListed, IpsListed, RoomsListed, OnlineListed;
    JoinKeepsUsersListed(clients, ks, after, now, until, socketId, auctionId);
    JoinKeepsIpsListed(clients, ks, after, now, until, socketId, auctionId);
    JoinKeepsOnlineListed(clients, ks, after, now, until, socketId, auctionId);
  }

  /** A disconnect unregisters its socket and no other. */
  lemma LeaveUnregisters(ks: Keyspace, after: Keyspace, now: int, socketId: string, id: string)
    requires KeysLeft(ks, after, socketId)
    ensures IsRegistered(after, now, id) <==> IsRegistered(ks, now, id) && id != socketId
    ensures id != socketId ==> NumberAt(after, now, SocketAuctionId(id)) == NumberAt(ks, now, SocketAuctionId(id))
  {
  }

  lemma LeftSet(ks: Keyspace, after: Keyspace, now: int, socketId: string, k: Key)
    requires FullyRegistered(ks, now, socketId) && SetsLeft(ks, after, now, socketId) && !IsForward(k)
    ensures MembersAt(after, now, k) == MembersAt(ks, now, k) - LeaveLoses(ks, now, socketId, k)
  {
  }

  lemma LeaveKeepsSocketsListed(clients: Clients, ks: Keyspace, after: Keyspace, now: int, socketId: string)
    requires UsersListed(clients, ks, now) && IpsListed(clients, ks, now)
    requires FullyRegistered(ks, now, socketId)
    requires TextAt(ks, now, SocketUsername(socketId)) == Some(clients(socketId).username)
    requires TextAt(ks, now, SocketIp(socketId)) == Some(clients(socketId).ip)
    requires SetsLeft(ks, after, now, socketId) && KeysLeft(ks, after, socketId)
    ensures UsersListed(clients, after, now) && IpsListed(clients, after, now)
  {
    hide SetsLeft, KeysLeft, MembersAt, IsRegistered, FullyRegistered;
    forall u, id | id in MembersAt(after, now, UserSockets(u))
      ensures IsRegistered(after, now, id) && clients(id).username == u
    {
      LeftSet(ks, after, now, socketId, UserSockets(u));
      LeaveUnregisters(ks, after, now, socketId, id);
    }
    forall ip, id | id in MembersAt(after, now, IpSockets(ip))
      ensures IsRegistered(after, now, id) && clients(id).ip == ip
    {
      LeftSet(ks, after, now, socketId, IpSockets(ip));
      LeaveUnregisters(ks, after, now, socketId, id);
    }
  }

  lemma LeaveKeepsRoomsListed(clients: Clients, ks: Keyspace, after: Keyspace, now: int, socketId: string)
    requires RoomsListed(clients, ks, now) && OnlineListed(ks, now)
    requires FullyRegistered(ks, now, socketId) && SetsLeft(ks, after, now, socketId)
    ensures RoomsListed(clients, after, now) && OnlineListed(after, now)
  {
    hide SetsLeft, MembersAt, TextAt, NumberAt;
    forall u, a
      ensures u in MembersAt(after, now, OnlineUsers(a)) <==> MembersAt(after, now, UserInAuction(u, a)) != {}
      ensures forall id | id in MembersAt(after, now, UserInAuction(u, a)) :: clients(id).username == u
    {
      LeftSet(ks, after, now, socketId, OnlineUsers(a));
      LeftSet(ks, after, now, socketId, UserInAuction(u, a));
    }
  }

  lemma LeaveKeepsIndexed(clients: Clients, ks: Keyspace, after: Keyspace, now: int, until: int, socketId: string)
    requires Indexed(clients, ks, now, until)
    requires IsRegistered(ks, now, socketId) && FullyRegistered(ks, now, socketId)
    requires SetsLeft(ks, after, now, socketId) && KeysLeft(ks, after, socketId)
    ensures Indexed(clients, after, now, until)
  {
    assert AllFresh(after, until) && ForwardComplete(after);
    BackedIsFullyRegistered(clients, ks, now, socketId);
    hide SetsLeft, KeysLeft, AllBacked, UsersListed, IpsListed, RoomsListed, OnlineListed;
    LeaveKeepsBacked(clients, ks, after, now, socketId);
    LeaveKeepsSocketsListed(clients, ks, after, now, socketId);
    LeaveKeepsRoomsListed(clients, ks, after, now, socketId);
  }

  /** Folding the published deltas over the empty room. */
  function OnlineAfter(published: seq<Presence>, auctionId: AuctionId): set<string>
    decreases |published|
  {
    if published == [] then {}
    else
      var before, last := OnlineAfter(published[..|published| - 1], auctionId), published[|published| - 1];
      if last.auctionId != Some(auctionId) then before
      else if last.online then before + {last.username}
      else before - {last.username}
  }

  ghost predicate Replays(s: State) {
    forall a :: OnlineAfter(s.published, a) == MembersAt(s.ks, s.now, OnlineUsers(a))
  }

  lemma JoinKeepsReplays(clients: Clients, ttl: int, s: State, socketId: string, auctionId: AuctionId)
    requires 0 < ttl && Replays(s)
    ensures Replays(Apply(clients, ttl, s, Join(socketId, auctionId)))
  {
    hide Registered;
    var c := clients(socketId);
    var event := Presence(Some(auctionId), c.username, true);
    JoinEffect(s.ks, s.now, ttl, c, socketId, auctionId);
    var t := Apply(clients, ttl, s, Join(socketId, auctionId));
    assert t.published[..|s.published|] == s.published;
    forall a ensures OnlineAfter(t.published, a) == MembersAt(t.ks, t.now, OnlineUsers(a)) {
      assert OnlineAfter(s.published, a) == MembersAt(s.ks, s.now, OnlineUsers(a));
    }
  }

  lemma LeaveKeepsReplays(clients: Clients, ttl: int, s: State, socketId: string)
    requires Replays(s) && (IsRegistered(s.ks, s.now, socketId) ==> FullyRegistered(s.ks, s.now, socketId))
    ensures Replays(Apply(clients, ttl, s, Leave(socketId)))
  {
    hide Unregistered, GoesOffline;
    var t := Apply(clients, ttl, s, Leave(socketId));
    if IsRegistered(s.ks, s.now, socketId) {
      LeaveEffect(s.ks, s.now, socketId);
      if GoesOffline(s.ks, s.now, socketId) {
        assert t.published[..|s.published|] == s.published;
      } else {
        assert t.published == s.published;
      }
      forall a ensures OnlineAfter(t.published, a) == MembersAt(t.ks, t.now, OnlineUsers(a)) {
        assert OnlineAfter(s.published, a) == MembersAt(s.ks, s.now, OnlineUsers(a));
      }
    } else {
      UnknownSocketIsLeftAlone(s.ks, s.now, socketId);
      assert t == s;
    }
  }

  lemma {:induction false} RunKeepsIndexed(clients: Clients, ttl: int, now: int, ops: seq<Operation>)
    requires 0 < ttl && NoWait(ops) && NamesGiven(clients)
    ensures var s := Run(clients, ttl, now, ops);
            s.now == now && Indexed(clients, s.ks, now, now + ttl) && Replays(s)
    decreases |ops|
  {
    hide Registered, Unregistered, Joined, SetsLeft, KeysLeft, OfflineEvents, Replays,
         UsersListed, IpsListed, RoomsListed, OnlineListed;
    if ops != [] {
      var init := ops[..|ops| - 1];
      var s := Run(clients, ttl, now, init);
      RunKeepsIndexed(clients, ttl, now, init);
      match ops[|ops| - 1] {
        case Join(socketId, auctionId) =>
          var c := clients(socketId);
          JoinEffect(s.ks, now, ttl, c, socketId, auctionId);
          JoinKeepsIndexed(clients, s.ks, Registered(s.ks, now, ttl, c.username, socketId, c.ip, auctionId),
                           now, now + ttl, socketId, auctionId);
          JoinKeepsReplays(clients, ttl, s, socketId, auctionId);
        case Leave(socketId) =>
          if IsRegistered(s.ks, now, socketId) {
            BackedIsFullyRegistered(clients, s.ks, now, socketId);
            LeaveEffect(s.ks, now, socketId);
            LeaveKeepsIndexed(clients, s.ks, Unregistered(s.ks, now, socketId), now, now + ttl, socketId);
          } else {
            UnknownSocketIsLeftAlone(s.ks, now, socketId);
          }
          LeaveKeepsReplays(clients, ttl, s, socketId);
      }
    } else {
      NothingIsIndexed(clients, now, now + ttl);
    }
  }

  lemma NothingIsIndexed(clients: Clients, now: int, until: int)
    ensures Indexed(clients, map[], now, until) && Replays(State(map[], now, []))
  {
  }

  /** Read both ways for one socket. */
  lemma IndexedSocket(clients: Clients, ks: Keyspace, now: int, until: int, id: string)
    requires Indexed(clients, ks, now, until) && now < until && NamesGiven(clients)
    ensures TextAt(ks, now, SocketUsername(id)).Some? <==> IsRegistered(ks, now, id)
    ensures TextAt(ks, now, SocketIp(id)).Some? <==> IsRegistered(ks, now, id)
    ensures IsRegistered(ks, now, id) ==>
              var c := clients(id);
              && FullyRegistered(ks, now, id)
              && TextAt(ks, now, SocketUsername(id)) == Some(c.username)
              && TextAt(ks, now, SocketIp(id)) == Some(c.ip)
              && id in MembersAt(ks, now, UserSockets(c.username))
              && id in MembersAt(ks, now, IpSockets(c.ip))
              && id in MembersAt(ks, now, UserInAuction(c.username, NumberAt(ks, now, SocketAuctionId(id)).value))
  {
    hide UsersListed, IpsListed, RoomsListed, OnlineListed;
    assert SocketUsername(id) in ks ==> Live(ks, now, SocketUsername(id));
    assert SocketUsername(id) in ks ==> Backed(clients, ks, id);
    assert SocketIp(id) in ks ==> IsForward(SocketIp(id)) && SocketUsername(id) in ks;
  }

  /**
   After any run, even of sockets in several auctions: the user and address sets list exactly the sockets
   whose forward keys say so, and a user is online in an auction exactly while its set there is not empty.
   */
  lemma IndexesAgree(clients: Clients, ttl: int, now: int, ops: seq<Operation>)
    requires 0 < ttl && NoWait(ops) && NamesGiven(clients)
    ensures var ks := Run(clients, ttl, now, ops).ks;
            && (forall u, id :: id in MembersAt(ks, now, UserSockets(u)) <==>
                  TextAt(ks, now, SocketUsername(id)) == Some(u))
            && (forall ip, id :: id in MembersAt(ks, now, IpSockets(ip)) <==> TextAt(ks, now, SocketIp(id)) == Some(ip))
            && (forall u, a :: u in MembersAt(ks, now, OnlineUsers(a)) <==>
                  MembersAt(ks, now, UserInAuction(u, a)) != {})
  {
    hide Run, AllBacked, FullyRegistered, TextAt, MembersAt;
    RunKeepsIndexed(clients, ttl, now, ops);
    var ks := Run(clients, ttl, now, ops).ks;
    forall id
      ensures forall u :: id in MembersAt(ks, now, UserSockets(u)) <==> TextAt(ks, now, SocketUsername(id)) == Some(u)
      ensures forall ip :: id in MembersAt(ks, now, IpSockets(ip)) <==> TextAt(ks, now, SocketIp(id)) == Some(ip)
    {
      IndexedSocket(clients, ks, now, now + ttl, id);
    }
  }

  /** Replaying the published presence deltas gives exactly the stored online set of every auction. */
  lemma PresenceReplays(clients: Clients, ttl: int, now: int, ops: seq<Operation>, auctionId: AuctionId)
    requires 0 < ttl && NoWait(ops) && NamesGiven(clients)
    ensures var s := Run(clients, ttl, now, ops);
            OnlineAfter(s.published, auctionId) == MembersAt(s.ks, now, OnlineUsers(auctionId))
  {
    RunKeepsIndexed(clients, ttl, now, ops);
  }

  // ----- Sockets in several auctions -----

  /** The socket is not registered in another auction. */
  predicate MayJoin(ks: Keyspace, now: int, socketId: string, auctionId: AuctionId) {
    !IsRegistered(ks, now, socketId) || NumberAt(ks, now, SocketAuctionId(socketId)) == Some(auctionId)
  }

  ghost predicate OneRoomAtATime(clients: Clients, ttl: int, now: int, ops: seq<Operation>) {
    forall i | 0 <= i < |ops| && ops[i].Join? ::
      MayJoin(Run(clients, ttl, now, ops[..i]).ks, now, ops[i].socketId, ops[i].auctionId)
  }

  /**
   A join keeps the per-auction sets in agreement with the forward keys exactly when the socket is not
   registered in another auction: otherwise it stays listed there, where no disconnect will remove it.
   */
  lemma JoinKeepsRoomsIff(
    clients: Clients, ttl: int, now: int, ops: seq<Operation>, socketId: string, auctionId: AuctionId
  )
    requires 0 < ttl && NoWait(ops) && NamesGiven(clients)
    requires RoomsAgree(Run(clients, ttl, now, ops).ks, now)
    ensures var s := Run(clients, ttl, now, ops);
            RoomsAgree(Apply(clients, ttl, s, Join(socketId, auctionId)).ks, now)
            <==> MayJoin(s.ks, now, socketId, auctionId)
  {
    hide Run, Registered, RoomsAgree, Joined, MayJoin;
    var s := Run(clients, ttl, now, ops);
    RunKeepsIndexed(clients, ttl, now, ops);
    JoinEffect(s.ks, s.now, ttl, clients(socketId), socketId, auctionId);
    var after := Apply(clients, ttl, s, Join(socketId, auctionId)).ks;
    if MayJoin(s.ks, now, socketId, auctionId) {
      JoinInRoomAgrees(clients, s.ks, after, now, now + ttl, socketId, auctionId);
    } else {
      JoinElsewhereDisagrees(clients, s.ks, after, now, now + ttl, socketId, auctionId);
    }
  }

  lemma JoinInRoomAgrees(
    clients: Clients, ks: Keyspace, after: Keyspace, now: int, until: int, socketId: string, auctionId: AuctionId
  )
    requires RoomsAgree(ks, now) && MayJoin(ks, now, socketId, auctionId)
    requires Joined(ks, after, now, until, clients(socketId), socketId, auctionId) && now < until && NamesGiven(clients)
    ensures RoomsAgree(after, now)
  {
    hide Joined, MembersAt, NumberAt, IsRegistered;
    forall u, a, id | id in MembersAt(after, now, UserInAuction(u, a))
      ensures IsRegistered(after, now, id) && NumberAt(after, now, SocketAuctionId(id)) == Some(a)
    {
      JoinedSet(ks, after, now, until, clients(socketId), socketId, auctionId, UserInAuction(u, a));
      JoinRegisters(ks, after, now, until, clients(socketId), socketId, auctionId, id);
    }
  }

  lemma JoinElsewhereDisagrees(
    clients: Clients, ks: Keyspace, after: Keyspace, now: int, until: int, socketId: string, auctionId: AuctionId
  )
    requires AllBacked(clients, ks, now) && !MayJoin(ks, now, socketId, auctionId)
    requires Joined(ks, after, now, until, clients(socketId), socketId, auctionId) && now < until && NamesGiven(clients)
    ensures !RoomsAgree(after, now)
  {
    BackedIsFullyRegistered(clients, ks, now, socketId);
    JoinRegisters(ks, after, now, until, clients(socketId), socketId, auctionId, socketId);
    var room := NumberAt(ks, now, SocketAuctionId(socketId)).value;
    var u := clients(socketId).username;
    assert socketId in MembersAt(ks, now, UserInAuction(u, room));
    assert socketId in MembersAt(after, now, UserInAuction(u, room));
  }

  lemma LeaveKeepsRooms(clients: Clients, ks: Keyspace, after: Keyspace, now: int, socketId: string)
    requires RoomsAgree(ks, now) && RoomsListed(clients, ks, now) && FullyRegistered(ks, now, socketId)
    requires TextAt(ks, now, SocketUsername(socketId)) == Some(clients(socketId).username)
    requires SetsLeft(ks, after, now, socketId) && KeysLeft(ks, after, socketId)
    ensures RoomsAgree(after, now)
  {
    hide SetsLeft, KeysLeft, MembersAt, IsRegistered, FullyRegistered;
    forall u, a, id | id in MembersAt(after, now, UserInAuction(u, a))
      ensures IsRegistered(after, now, id) && NumberAt(after, now, SocketAuctionId(id)) == Some(a)
    {
      LeftSet(ks, after, now, socketId, UserInAuction(u, a));
      LeaveUnregisters(ks, after, now, socketId, id);
    }
  }

  lemma {:induction false} RunKeepsRooms(clients: Clients, ttl: int, now: int, ops: seq<Operation>)
    requires 0 < ttl && NoWait(ops) && NamesGiven(clients) && OneRoomAtATime(clients, ttl, now, ops)
    ensures RoomsAgree(Run(clients, ttl, now, ops).ks, now)
    decreases |ops|
  {
    hide Registered, Unregistered, OfflineEvents, Replays, MayJoin, SetsLeft, KeysLeft;
    if ops == [] {
    } else {
      var init, last := ops[..|ops| - 1], ops[|ops| - 1];
      var s := Run(clients, ttl, now, init);
      assert forall i | 0 <= i < |init| :: init[..i] == ops[..i];
      RunKeepsRooms(clients, ttl, now, init);
      RunKeepsIndexed(clients, ttl, now, init);
      if last.Join? {
        JoinKeepsRoomsIff(clients, ttl, now, init, last.socketId, last.auctionId);
      } else if IsRegistered(s.ks, now, last.socketId) {
        BackedIsFullyRegistered(clients, s.ks, now, last.socketId);
        LeaveEffect(s.ks, now, last.socketId);
        LeaveKeepsRooms(clients, s.ks, Unregistered(s.ks, now, last.socketId), now, last.socketId);
      } else {
        UnknownSocketIsLeftAlone(s.ks, now, last.socketId);
      }
    }
  }

  /** With one auction at a time, a user's set in an auction is exactly its sockets whose keys name that auction. */
  lemma RoomIndexAgrees(clients: Clients, ttl: int, now: int, ops: seq<Operation>, u: string, a: AuctionId, id: string)
    requires 0 < ttl && NoWait(ops) && NamesGiven(clients) && OneRoomAtATime(clients, ttl, now, ops)
    ensures var ks := Run(clients, ttl, now, ops).ks;
            id in MembersAt(ks, now, UserInAuction(u, a)) <==>
            TextAt(ks, now, SocketUsername(id)) == Some(u) && NumberAt(ks, now, SocketAuctionId(id)) == Some(a)
  {
    hide Run;
    RunKeepsIndexed(clients, ttl, now, ops);
    RunKeepsRooms(clients, ttl, now, ops);
    IndexedSocket(clients, Run(clients, ttl, now, ops).ks, now, now + ttl, id);
  }

  lemma OneMoreOperation(clients: Clients, ttl: int, now: int, ops: seq<Operation>, op: Operation)
    ensures Run(clients, ttl, now, ops + [op]) == Apply(clients, ttl, Run(clients, ttl, now, ops), op)
  {
    assert (ops + [op])[..|ops|] == ops;
  }

  lemma TwoOperations(clients: Clients, ttl: int, now: int, x: Operation, y: Operation)
    ensures Run(clients, ttl, now, [x]) == Apply(clients, ttl, State(map[], now, []), x)
    ensures Run(clients, ttl, now, [x, y]) == Apply(clients, ttl, Run(clients, ttl, now, [x]), y)
  {
    hide Apply;
    assert [x][..0] == [] && [x, y][..1] == [x];
  }

  /** What a socket's joins of two auctions leave in a set. */
  lemma TwoJoinsOnSet(
    clients: Clients, ttl: int, now: int, socketId: string, a: AuctionId, b: AuctionId, k: Key
  )
    requires 0 < ttl && !IsForward(k)
    ensures var c, s := clients(socketId), Run(clients, ttl, now, [Join(socketId, a), Join(socketId, b)]);
            MembersAt(s.ks, now, k) == JoinGains(c, socketId, a, k) + JoinGains(c, socketId, b, k)
  {
    hide Run, Registered, MembersAt, JoinGains;
    var c := clients(socketId);
    TwoOperations(clients, ttl, now, Join(socketId, a), Join(socketId, b));
    NoMembers(now, k);
    JoinEffectOnSet(map[], now, ttl, c, socketId, a, k);
    JoinEffectOnSet(Run(clients, ttl, now, [Join(socketId, a)]).ks, now, ttl, c, socketId, b, k);
  }

  /** And in its forward keys. */
  lemma TwoJoinsOnKeys(clients: Clients, ttl: int, now: int, socketId: string, a: AuctionId, b: AuctionId)
    requires 0 < ttl && NamesGiven(clients)
    ensures var s := Run(clients, ttl, now, [Join(socketId, a), Join(socketId, b)]);
            && s.now == now
            && TextAt(s.ks, now, SocketUsername(socketId)) == Some(clients(socketId).username)
            && NumberAt(s.ks, now, SocketAuctionId(socketId)) == Some(b)
            && FullyRegistered(s.ks, now, socketId)
  {
    hide Run, Registered;
    TwoOperations(clients, ttl, now, Join(socketId, a), Join(socketId, b));
    JoinEffectOnForward(Run(clients, ttl, now, [Join(socketId, a)]).ks, now, ttl, clients(socketId), socketId, b);
  }

  lemma NoMembers(now: int, k: Key)
    ensures MembersAt(map[], now, k) == {}
  {
  }

  /** A socket that joins two auctions and disconnects is registered nowhere, and its user stays online in the first. */
  lemma TwoRoomsHappen(clients: Clients, ttl: int, now: int, socketId: string, a: AuctionId, b: AuctionId)
    requires 0 < ttl && NamesGiven(clients) && a != b
    ensures var u := clients(socketId).username;
            var joins := [Join(socketId, a), Join(socketId, b)];
            var ks := Run(clients, ttl, now, joins + [Leave(socketId)]).ks;
            && !RoomsAgree(Run(clients, ttl, now, joins).ks, now)
            && !IsRegistered(ks, now, socketId)
            && socketId in MembersAt(ks, now, UserInAuction(u, a)) && u in MembersAt(ks, now, OnlineUsers(a))
            && MembersAt(ks, now, UserInAuction(u, b)) == {} && MembersAt(ks, now, OnlineUsers(b)) == {}
  {
    hide Run, Unregistered, SetsLeft, KeysLeft, MembersAt, TextAt, NumberAt, FullyRegistered, IsRegistered;
    var u := clients(socketId).username;
    var joins := [Join(socketId, a), Join(socketId, b)];
    var ks := Run(clients, ttl, now, joins).ks;
    var after := Run(clients, ttl, now, joins + [Leave(socketId)]).ks;
    TwoJoinsOnKeys(clients, ttl, now, socketId, a, b);
    TwoJoinsOnSet(clients, ttl, now, socketId, a, b, UserInAuction(u, a));
    TwoJoinsOnSet(clients, ttl, now, socketId, a, b, UserInAuction(u, b));
    TwoJoinsOnSet(clients, ttl, now, socketId, a, b, OnlineUsers(a));
    TwoJoinsOnSet(clients, ttl, now, socketId, a, b, OnlineUsers(b));
    assert socketId in MembersAt(ks, now, UserInAuction(u, a));
    OneMoreOperation(clients, ttl, now, joins, Leave(socketId));
    LeaveEffect(ks, now, socketId);
    LeaveUnregisters(ks, after, now, socketId, socketId);
    forall k | k in {UserInAuction(u, a), UserInAuction(u, b), OnlineUsers(a), OnlineUsers(b)}
      ensures MembersAt(after, now, k) == MembersAt(ks, now, k) - LeaveLoses(ks, now, socketId, k)
    {
      LeftSet(ks, after, now, socketId, k);
    }
  }
}
