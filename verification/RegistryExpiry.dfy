/** The registry under a clock that expires keys. */
module RegistryExpiry {
  import opened AuctionRows
  import opened Keyspace
  import opened Registry
  import opened Wrappers

  /** The set `k` holds `member` and will not expire before `deadline`. */
  ghost predicate Outlasts(ks: Keyspace, k: Key, member: string, deadline: int) {
    && k in ks && ks[k].value.Members? && member in ks[k].value.members
    && ks[k].deadline.Some? && deadline <= ks[k].deadline.value
  }

  /** The socket's username key stands with its other forward keys, and its inverse entries outlast it. */
  ghost predicate Backed(clients: Clients, ks: Keyspace, socketId: string)
    requires SocketUsername(socketId) in ks
  {
    var c, entry := clients(socketId), ks[SocketUsername(socketId)];
    && entry.value == Text(c.username) && entry.deadline.Some?
    && SocketIp(socketId) in ks && ks[SocketIp(socketId)] == Entry(Text(c.ip), entry.deadline)
    && SocketAuctionId(socketId) in ks
    && ks[SocketAuctionId(socketId)].deadline == entry.deadline
    && ks[SocketAuctionId(socketId)].value.Number?
    && var auctionId := ks[SocketAuctionId(socketId)].value.number;
       && Outlasts(ks, UserSockets(c.username), socketId, entry.deadline.value)
       && Outlasts(ks, IpSockets(c.ip), socketId, entry.deadline.value)
       && Outlasts(ks, UserInAuction(c.username, auctionId), socketId, entry.deadline.value)
       && Outlasts(ks, OnlineUsers(auctionId), c.username, entry.deadline.value)
  }

  ghost predicate AllBacked(clients: Clients, ks: Keyspace, now: int) {
    forall socketId | Live(ks, now, SocketUsername(socketId)) :: Backed(clients, ks, socketId)
  }

  /** No deadline lies further ahead than one time to live. */
  ghost predicate DeadlinesWithin(ks: Keyspace, latest: int) {
    forall k | k in ks :: ks[k].deadline.Some? && ks[k].deadline.value <= latest
  }

  lemma JoinKeepsOutlasts(
    ks: Keyspace, after: Keyspace, now: int, until: int, c: Client, socketId: string, auctionId: AuctionId,
    k: Key, member: string, deadline: int
  )
    requires Joined(ks, after, now, until, c, socketId, auctionId)
    requires !IsForward(k) && Outlasts(ks, k, member, deadline) && now < deadline <= until
    ensures Outlasts(after, k, member, deadline)
  {
    assert member in MembersAt(ks, now, k);
    assert member in MembersAt(after, now, k);
  }

  /** The joining socket is backed afresh. */
  lemma JoinedIsBacked(
    clients: Clients, ks: Keyspace, after: Keyspace, now: int, until: int, socketId: string, auctionId: AuctionId
  )
    requires now < until && Joined(ks, after, now, until, clients(socketId), socketId, auctionId)
    ensures SocketUsername(socketId) in after && Backed(clients, after, socketId)
  {
    var c := clients(socketId);
    assert socketId in MembersAt(after, now, UserSockets(c.username));
    assert socketId in MembersAt(after, now, IpSockets(c.ip));
    assert socketId in MembersAt(after, now, UserInAuction(c.username, auctionId));
    assert c.username in MembersAt(after, now, OnlineUsers(auctionId));
  }

  /** Any other socket stays backed: its keys are untouched and its sets live at least as long. */
  lemma OthersStayBacked(
    clients: Clients, ks: Keyspace, after: Keyspace, now: int, until: int, socketId: string, auctionId: AuctionId,
    id: string
  )
    requires Live(ks, now, SocketUsername(id)) && Backed(clients, ks, id) && id != socketId
    requires ks[SocketUsername(id)].deadline.value <= until
    requires Joined(ks, after, now, until, clients(socketId), socketId, auctionId)
    ensures SocketUsername(id) in after && Backed(clients, after, id)
  {
    var c, deadline := clients(id), ks[SocketUsername(id)].deadline.value;
    var room := ks[SocketAuctionId(id)].value.number;
    JoinKeepsOutlasts(ks, after, now, until,
                      clients(socketId), socketId, auctionId, UserSockets(c.username), id, deadline);
    JoinKeepsOutlasts(ks, after, now, until, clients(socketId), socketId, auctionId, IpSockets(c.ip), id, deadline);
    JoinKeepsOutlasts(ks, after, now, until,
                      clients(socketId), socketId, auctionId, UserInAuction(c.username, room), id, deadline);
    JoinKeepsOutlasts(ks, after, now, until,
                      clients(socketId), socketId, auctionId, OnlineUsers(room), c.username, deadline);
    assert forall k | IsForward(k) && k.socketId == id && k in ks :: k in after && after[k] == ks[k];
    hide Joined, Outlasts;
  }

  lemma JoinKeepsBacked(
    clients: Clients, ks: Keyspace, after: Keyspace, now: int, until: int, socketId: string, auctionId: AuctionId
  )
    requires AllBacked(clients, ks, now) && DeadlinesWithin(ks, until) && now < until
    requires Joined(ks, after, now, until, clients(socketId), socketId, auctionId)
    ensures AllBacked(clients, after, now) && DeadlinesWithin(after, until)
  {
    assert forall id | id != socketId && Live(after, now, SocketUsername(id)) :: Live(ks, now, SocketUsername(id));
    assert DeadlinesWithin(after, until);
    hide Joined, Backed;
    forall id | Live(after, now, SocketUsername(id)) ensures Backed(clients, after, id) {
      if id == socketId {
        JoinedIsBacked(clients, ks, after, now, until, socketId, auctionId);
      } else {
        OthersStayBacked(clients, ks, after, now, until, socketId, auctionId, id);
      }
    }
  }

  lemma BackedIsFullyRegistered(clients: Clients, ks: Keyspace, now: int, socketId: string)
    requires AllBacked(clients, ks, now) && IsRegistered(ks, now, socketId)
    ensures FullyRegistered(ks, now, socketId)
    ensures TextAt(ks, now, SocketUsername(socketId)) == Some(clients(socketId).username)
    ensures TextAt(ks, now, SocketIp(socketId)) == Some(clients(socketId).ip)
  {
  }

  lemma LeaveKeepsOutlasts(
    ks: Keyspace, after: Keyspace, now: int, socketId: string, k: Key, member: string, deadline: int
  )
    requires FullyRegistered(ks, now, socketId)
    requires SetsLeft(ks, after, now, socketId) && KeysLeft(ks, after, socketId)
    requires !IsForward(k) && Outlasts(ks, k, member, deadline) && now < deadline
    requires member !in LeaveLoses(ks, now, socketId, k)
    ensures Outlasts(after, k, member, deadline)
  {
    assert member in MembersAt(ks, now, k);
    assert member in MembersAt(after, now, k);
  }

  lemma RemainingStayBacked(clients: Clients, ks: Keyspace, after: Keyspace, now: int, socketId: string, id: string)
    requires FullyRegistered(ks, now, socketId)
    requires SetsLeft(ks, after, now, socketId) && KeysLeft(ks, after, socketId)
    requires Live(ks, now, SocketUsername(id)) && Backed(clients, ks, id) && id != socketId
    ensures SocketUsername(id) in after && Backed(clients, after, id)
  {
    var c, deadline := clients(id), ks[SocketUsername(id)].deadline.value;
    var room := ks[SocketAuctionId(id)].value.number;
    assert id in MembersAt(ks, now, UserInAuction(c.username, room));
    LeaveKeepsOutlasts(ks, after, now, socketId, UserSockets(c.username), id, deadline);
    LeaveKeepsOutlasts(ks, after, now, socketId, IpSockets(c.ip), id, deadline);
    LeaveKeepsOutlasts(ks, after, now, socketId, UserInAuction(c.username, room), id, deadline);
    LeaveKeepsOutlasts(ks, after, now, socketId, OnlineUsers(room), c.username, deadline);
    assert forall k | IsForward(k) && k.socketId == id && k in ks :: k in after && after[k] == ks[k];
    hide SetsLeft, KeysLeft, Outlasts, FullyRegistered;
  }

  lemma LeaveKeepsBacked(clients: Clients, ks: Keyspace, after: Keyspace, now: int, socketId: string)
    requires AllBacked(clients, ks, now) && IsRegistered(ks, now, socketId)
    requires FullyRegistered(ks, now, socketId)
    requires SetsLeft(ks, after, now, socketId) && KeysLeft(ks, after, socketId)
    ensures AllBacked(clients, after, now)
    ensures forall latest | DeadlinesWithin(ks, latest) :: DeadlinesWithin(after, latest)
  {
    assert forall id | Live(after, now, SocketUsername(id)) :: Live(ks, now, SocketUsername(id)) && id != socketId;
    hide SetsLeft, KeysLeft, Backed, FullyRegistered;
    forall id | Live(after, now, SocketUsername(id)) ensures Backed(clients, after, id) {
      RemainingStayBacked(clients, ks, after, now, socketId, id);
    }
  }

  lemma {:induction false} RunKeepsBacked(clients: Clients, ttl: int, now: int, ops: seq<Operation>)
    requires 0 < ttl
    ensures var s := Run(clients, ttl, now, ops);
            AllBacked(clients, s.ks, s.now) && DeadlinesWithin(s.ks, s.now + ttl)
    decreases |ops|
  {
    hide Registered, Unregistered, Joined, SetsLeft, KeysLeft, Backed;
    if ops == [] {
    } else {
      var s := Run(clients, ttl, now, ops[..|ops| - 1]);
      RunKeepsBacked(clients, ttl, now, ops[..|ops| - 1]);
      match ops[|ops| - 1] {
        case Join(socketId, auctionId) =>
          JoinEffect(s.ks, s.now, ttl, clients(socketId), socketId, auctionId);
          var c := clients(socketId);
          JoinKeepsBacked(clients, s.ks, Registered(s.ks, s.now, ttl, c.username, socketId, c.ip, auctionId),
                          s.now, s.now + ttl, socketId, auctionId);
        case Leave(socketId) =>
          if IsRegistered(s.ks, s.now, socketId) {
            BackedIsFullyRegistered(clients, s.ks, s.now, socketId);
            LeaveEffect(s.ks, s.now, socketId);
            LeaveKeepsBacked(clients, s.ks, Unregistered(s.ks, s.now, socketId), s.now, socketId);
          } else {
            UnknownSocketIsLeftAlone(s.ks, s.now, socketId);
          }
        case Wait(ms) => hide FullyRegistered, IsRegistered;
      }
    }
  }

  /**
   Over any run of joins, to any number of auctions, disconnects and expiry: while a socket's username key
   lives, the socket is a live member of its user's, its address's and its user-in-auction sets, and its user is
   online in the auction it joined last.
   */
  lemma LiveSocketIsListed(clients: Clients, ttl: int, now: int, ops: seq<Operation>, socketId: string)
    requires 0 < ttl
    requires var s := Run(clients, ttl, now, ops); Live(s.ks, s.now, SocketUsername(socketId))
    ensures var s := Run(clients, ttl, now, ops);
            var c, auctionId := clients(socketId), NumberAt(s.ks, s.now, SocketAuctionId(socketId));
            && TextAt(s.ks, s.now, SocketUsername(socketId)) == Some(c.username)
            && auctionId.Some?
            && socketId in MembersAt(s.ks, s.now, UserSockets(c.username))
            && socketId in MembersAt(s.ks, s.now, IpSockets(c.ip))
            && socketId in MembersAt(s.ks, s.now, UserInAuction(c.username, auctionId.value))
            && c.username in MembersAt(s.ks, s.now, OnlineUsers(auctionId.value))
  {
    RunKeepsBacked(clients, ttl, now, ops);
  }
}
