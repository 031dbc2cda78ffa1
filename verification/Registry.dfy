/**
 The socket and presence registry: one transaction per join and per disconnect over forward keys
 (socket to user, IP, auction) and inverse sets, all with the same time to live.
 */
module Registry {
  import opened AuctionRows
  import opened Keyspace
  import opened Wrappers

  /** A socket's user and address, fixed for its life.  Registered usernames are not empty. */
  datatype Client = Client(username: string, ip: string)

  type Clients = string -> Client

  /** user_online or user_offline.  A disconnect names the auction it read, if there was one. */
  datatype Presence = Presence(auctionId: Option<AuctionId>, username: string, online: bool)

  /** The seven keys of a join, each made from what it was before the join. */
  function Registered(
    ks: Keyspace, now: int, ttl: int, username: string, socketId: string, ip: string, auctionId: AuctionId
  ): Keyspace {
    var until := Some(now + ttl);
    ks[IpSockets(ip) := Entry(Members(MembersAt(ks, now, IpSockets(ip)) + {socketId}), until)]
      [SocketIp(socketId) := Entry(Text(ip), until)]
      [UserSockets(username) := Entry(Members(MembersAt(ks, now, UserSockets(username)) + {socketId}), until)]
      [SocketUsername(socketId) := Entry(Text(username), until)]
      [SocketAuctionId(socketId) := Entry(Number(auctionId), until)]
      [OnlineUsers(auctionId) := Entry(Members(MembersAt(ks, now, OnlineUsers(auctionId)) + {username}), until)]
      [UserInAuction(username, auctionId) :=
        Entry(Members(MembersAt(ks, now, UserInAuction(username, auctionId)) + {socketId}), until)]
  }

  /** Nothing is known of a socket without a username key; it is left alone. */
  predicate IsRegistered(ks: Keyspace, now: int, socketId: string) {
    TextAt(ks, now, SocketUsername(socketId)).Some? && TextAt(ks, now, SocketUsername(socketId)).value != ""
  }

  /** `member` taken out of the set that `k` names, if there is such a key. */
  function Without(ks: Keyspace, now: int, k: Option<Key>, member: string): Keyspace {
    if k.Some? then SRem(ks, now, k.value, member) else ks
  }

  function IpKey(ks: Keyspace, now: int, socketId: string): Option<Key> {
    var ip := TextAt(ks, now, SocketIp(socketId));
    if ip.Some? then Some(IpSockets(ip.value)) else None
  }

  function RoomKey(ks: Keyspace, now: int, socketId: string, username: string): Option<Key> {
    var auctionId := NumberAt(ks, now, SocketAuctionId(socketId));
    if auctionId.Some? then Some(UserInAuction(username, auctionId.value)) else None
  }

  /** The disconnect transaction. */
  function Removed(ks: Keyspace, now: int, socketId: string): Keyspace
    requires IsRegistered(ks, now, socketId)
  {
    var username := TextAt(ks, now, SocketUsername(socketId)).value;
    var inverse :=
      Without(
        SRem(Without(ks, now, IpKey(ks, now, socketId), socketId), now, UserSockets(username), socketId),
        now, RoomKey(ks, now, socketId, username), socketId);
    inverse - {SocketIp(socketId), SocketUsername(socketId), SocketAuctionId(socketId)}
  }

  /** Whether the disconnect left its user without a socket in the auction it was in. */
  predicate GoesOffline(ks: Keyspace, now: int, socketId: string)
    requires IsRegistered(ks, now, socketId)
  {
    var room := RoomKey(ks, now, socketId, TextAt(ks, now, SocketUsername(socketId)).value);
    room.Some? ==> MembersAt(Removed(ks, now, socketId), now, room.value) == {}
  }

  function Unregistered(ks: Keyspace, now: int, socketId: string): Keyspace {
    if !IsRegistered(ks, now, socketId) then ks
    else if !GoesOffline(ks, now, socketId) then Removed(ks, now, socketId)
    else
      var auctionId := NumberAt(ks, now, SocketAuctionId(socketId));
      Without(
        Removed(ks, now, socketId), now,
        if auctionId.Some? then Some(OnlineUsers(auctionId.value)) else None,
        TextAt(ks, now, SocketUsername(socketId)).value)
  }

  function OfflineEvents(ks: Keyspace, now: int, socketId: string): seq<Presence> {
    if IsRegistered(ks, now, socketId) && GoesOffline(ks, now, socketId) then
      [Presence(NumberAt(ks, now, SocketAuctionId(socketId)), TextAt(ks, now, SocketUsername(socketId)).value, false)]
    else []
  }

  // ----- Runs -----

  datatype Operation = Join(socketId: string, auctionId: AuctionId) | Leave(socketId: string) | Wait(ms: nat)

  datatype State = State(ks: Keyspace, now: int, published: seq<Presence>)

  function Apply(clients: Clients, ttl: int, s: State, op: Operation): State {
    match op
    case Join(socketId, auctionId) =>
      var c := clients(socketId);
      s.(ks := Registered(s.ks, s.now, ttl, c.username, socketId, c.ip, auctionId),
         published := s.published + [Presence(Some(auctionId), c.username, true)])
    case Leave(socketId) =>
      s.(ks := Unregistered(s.ks, s.now, socketId),
         published := s.published + OfflineEvents(s.ks, s.now, socketId))
    case Wait(ms) => s.(now := s.now + ms)
  }

  function Run(clients: Clients, ttl: int, now: int, ops: seq<Operation>): State
    decreases |ops|
  {
    if ops == [] then State(map[], now, [])
    else Apply(clients, ttl, Run(clients, ttl, now, ops[..|ops| - 1]), ops[|ops| - 1])
  }

  /** A user's sockets and an address's sockets: the two things that are limited. */
  datatype Scope = OfUser(username: string) | OfIp(ip: string)

  function KeyOf(scope: Scope): Key {
    match scope
    case OfUser(username) => UserSockets(username)
    case OfIp(ip) => IpSockets(ip)
  }

  predicate IsIn(c: Client, scope: Scope) {
    match scope
    case OfUser(username) => c.username == username
    case OfIp(ip) => c.ip == ip
  }

  // ----- What each transaction does, key by key -----

  predicate IsForward(k: Key) {
    k.SocketUsername? || k.SocketIp? || k.SocketAuctionId?
  }

  function JoinGains(c: Client, socketId: string, auctionId: AuctionId, k: Key): set<string> {
    match k
    case IpSockets(ip) => if ip == c.ip then {socketId} else {}
    case UserSockets(username) => if username == c.username then {socketId} else {}
    case UserInAuction(username, a) => if username == c.username && a == auctionId then {socketId} else {}
    case OnlineUsers(a) => if a == auctionId then {c.username} else {}
    case _ => {}
  }

  lemma JoinEffectOnSet(ks: Keyspace, now: int, ttl: int, c: Client, socketId: string, auctionId: AuctionId, k: Key)
    requires 0 < ttl && !IsForward(k)
    ensures MembersAt(Registered(ks, now, ttl, c.username, socketId, c.ip, auctionId), now, k)
            == MembersAt(ks, now, k) + JoinGains(c, socketId, auctionId, k)
  {
  }

  lemma JoinEffectOnKey(ks: Keyspace, now: int, ttl: int, c: Client, socketId: string, auctionId: AuctionId, k: Key)
    ensures var after := Registered(ks, now, ttl, c.username, socketId, c.ip, auctionId);
            && (IsForward(k) && k.socketId != socketId ==> (k in after <==> k in ks))
            && (IsForward(k) && k.socketId != socketId && k in ks ==> after[k] == ks[k])
            && (k in after ==> (k in ks && after[k] == ks[k]) || after[k].deadline == Some(now + ttl))
            && (JoinGains(c, socketId, auctionId, k) != {} ==> k in after && after[k].deadline == Some(now + ttl))
  {
  }

  /** `after` is `ks` with a join's gains in the inverse sets and the socket's three forward keys renewed. */
  ghost predicate Joined(
    ks: Keyspace, after: Keyspace, now: int, until: int, c: Client, socketId: string, auctionId: AuctionId
  ) {
    && (forall k | !IsForward(k) ::
          MembersAt(after, now, k) == MembersAt(ks, now, k) + JoinGains(c, socketId, auctionId, k))
    && SocketUsername(socketId) in after && after[SocketUsername(socketId)] == Entry(Text(c.username), Some(until))
    && SocketIp(socketId) in after && after[SocketIp(socketId)] == Entry(Text(c.ip), Some(until))
    && SocketAuctionId(socketId) in after && after[SocketAuctionId(socketId)] == Entry(Number(auctionId), Some(until))
    && (forall k | IsForward(k) && k.socketId != socketId :: k in after <==> k in ks)
    && (forall k | IsForward(k) && k.socketId != socketId && k in ks :: after[k] == ks[k])
    && (forall k | k in after :: (k in ks && after[k] == ks[k]) || after[k].deadline == Some(until))
    && (forall k | JoinGains(c, socketId, auctionId, k) != {} :: k in after && after[k].deadline == Some(until))
  }

  lemma JoinEffectOnForward(ks: Keyspace, now: int, ttl: int, c: Client, socketId: string, auctionId: AuctionId)
    ensures var after := Registered(ks, now, ttl, c.username, socketId, c.ip, auctionId);
            && SocketUsername(socketId) in after && after[SocketUsername(socketId)]
                  == Entry(Text(c.username), Some(now + ttl))
            && SocketIp(socketId) in after && after[SocketIp(socketId)] == Entry(Text(c.ip), Some(now + ttl))
            && SocketAuctionId(socketId) in after && after[SocketAuctionId(socketId)]
                  == Entry(Number(auctionId), Some(now + ttl))
  {
  }

  lemma JoinEffect(ks: Keyspace, now: int, ttl: int, c: Client, socketId: string, auctionId: AuctionId)
    requires 0 < ttl
    ensures Joined(ks, Registered(ks, now, ttl, c.username, socketId, c.ip, auctionId),
                   now, now + ttl, c, socketId, auctionId)
  {
    hide Registered, MembersAt, JoinGains;
    var after := Registered(ks, now, ttl, c.username, socketId, c.ip, auctionId);
    JoinEffectOnForward(ks, now, ttl, c, socketId, auctionId);
    forall k | !IsForward(k)
      ensures MembersAt(after, now, k) == MembersAt(ks, now, k) + JoinGains(c, socketId, auctionId, k)
    {
      JoinEffectOnSet(ks, now, ttl, c, socketId, auctionId, k);
    }
    forall k | IsForward(k) && k.socketId != socketId
      ensures (k in after <==> k in ks) && (k in ks ==> after[k] == ks[k])
    {
      JoinEffectOnKey(ks, now, ttl, c, socketId, auctionId, k);
    }
    forall k | k in after ensures (k in ks && after[k] == ks[k]) || after[k].deadline == Some(now + ttl) {
      JoinEffectOnKey(ks, now, ttl, c, socketId, auctionId, k);
    }
    forall k | JoinGains(c, socketId, auctionId, k) != {} ensures k in after && after[k].deadline == Some(now + ttl) {
      JoinEffectOnKey(ks, now, ttl, c, socketId, auctionId, k);
    }
  }

  /** The socket is registered and all three forward keys are there to be read. */
  predicate FullyRegistered(ks: Keyspace, now: int, socketId: string) {
    && IsRegistered(ks, now, socketId)
    && TextAt(ks, now, SocketIp(socketId)).Some?
    && NumberAt(ks, now, SocketAuctionId(socketId)).Some?
  }

  function LeaveLoses(ks: Keyspace, now: int, socketId: string, k: Key): set<string>
    requires FullyRegistered(ks, now, socketId)
  {
    var username := TextAt(ks, now, SocketUsername(socketId)).value;
    var auctionId := NumberAt(ks, now, SocketAuctionId(socketId)).value;
    match k
    case IpSockets(ip) => if TextAt(ks, now, SocketIp(socketId)) == Some(ip) then {socketId} else {}
    case UserSockets(u) => if u == username then {socketId} else {}
    case UserInAuction(u, a) => if u == username && a == auctionId then {socketId} else {}
    case OnlineUsers(a) =>
      if a == auctionId && MembersAt(ks, now, UserInAuction(username, auctionId)) <= {socketId} then {username} else {}
    case _ => {}
  }

  /** `after` is `ks` with `member` taken out of the one set `k`, as key `other` sees it. */
  predicate TakenAt(ks: Keyspace, after: Keyspace, now: int, k: Key, member: string, other: Key) {
    && MembersAt(after, now, other) == MembersAt(ks, now, other) - (if other == k then {member} else {})
    && (other in after ==> other in ks && after[other].deadline == ks[other].deadline)
    && (other != k && other in ks ==> other in after && after[other] == ks[other])
  }

  lemma RemEffect(ks: Keyspace, now: int, k: Key, member: string, other: Key)
    ensures TakenAt(ks, SRem(ks, now, k, member), now, k, member, other)
  {
  }

  /** The inverse sets of `after` are those of `ks` without what a disconnect loses. */
  ghost predicate SetsLeft(ks: Keyspace, after: Keyspace, now: int, socketId: string)
    requires FullyRegistered(ks, now, socketId)
  {
    forall k | !IsForward(k) :: MembersAt(after, now, k) == MembersAt(ks, now, k) - LeaveLoses(ks, now, socketId, k)
  }

  /** The socket's own forward keys are gone, the others untouched, and no deadline has moved. */
  predicate KeyLeft(ks: Keyspace, after: Keyspace, socketId: string, k: Key) {
    && (IsForward(k) ==> (k in after <==> k in ks && k.socketId != socketId))
    && (IsForward(k) && k in after ==> k in ks && after[k] == ks[k])
    && (k in after ==> k in ks && after[k].deadline == ks[k].deadline)
  }

  ghost predicate KeysLeft(ks: Keyspace, after: Keyspace, socketId: string) {
    && (forall k | IsForward(k) :: k in after <==> k in ks && k.socketId != socketId)
    && (forall k | IsForward(k) && k in after :: after[k] == ks[k])
    && (forall k | k in after :: k in ks && after[k].deadline == ks[k].deadline)
  }

  /** The disconnect's commands one after another; the last one only if the user is left without a socket. */
  datatype Commands = Commands(ip: Keyspace, user: Keyspace, room: Keyspace, forward: Keyspace, online: Keyspace)

  function DisconnectStages(ks: Keyspace, now: int, socketId: string): Commands
    requires FullyRegistered(ks, now, socketId)
  {
    var username := TextAt(ks, now, SocketUsername(socketId)).value;
    var auctionId := NumberAt(ks, now, SocketAuctionId(socketId)).value;
    var ip := SRem(ks, now, IpSockets(TextAt(ks, now, SocketIp(socketId)).value), socketId);
    var user := SRem(ip, now, UserSockets(username), socketId);
    var room := SRem(user, now, UserInAuction(username, auctionId), socketId);
    var forward := room - {SocketIp(socketId), SocketUsername(socketId), SocketAuctionId(socketId)};
    Commands(ip, user, room, forward, SRem(forward, now, OnlineUsers(auctionId), username))
  }

  /** What the commands have done to one key, before and after the last of them. */
  lemma StagesOnKey(ks: Keyspace, now: int, socketId: string, k: Key)
    requires FullyRegistered(ks, now, socketId)
    ensures var stages := DisconnectStages(ks, now, socketId);
            var username := TextAt(ks, now, SocketUsername(socketId)).value;
            var auctionId := NumberAt(ks, now, SocketAuctionId(socketId)).value;
            && (!IsForward(k) ==>
                  && MembersAt(stages.forward, now, k)
                     == MembersAt(ks, now, k) - (if k.OnlineUsers? then {} else LeaveLoses(ks, now, socketId, k))
                  && MembersAt(stages.online, now, k)
                     == MembersAt(stages.forward, now, k) - (if k == OnlineUsers(auctionId) then {username} else {}))
            && KeyLeft(ks, stages.forward, socketId, k)
            && KeyLeft(ks, stages.online, socketId, k)
  {
    var username := TextAt(ks, now, SocketUsername(socketId)).value;
    var auctionId := NumberAt(ks, now, SocketAuctionId(socketId)).value;
    var ip := TextAt(ks, now, SocketIp(socketId)).value;
    var stages := DisconnectStages(ks, now, socketId);
    RemEffect(ks, now, IpSockets(ip), socketId, k);
    RemEffect(stages.ip, now, UserSockets(username), socketId, k);
    RemEffect(stages.user, now, UserInAuction(username, auctionId), socketId, k);
    RemEffect(stages.forward, now, OnlineUsers(auctionId), username, k);
    assert !IsForward(k) ==> MembersAt(stages.forward, now, k) == MembersAt(stages.room, now, k);
    hide SRem, MembersAt, TextAt, NumberAt;
  }

  /** The transaction and what may follow it are those commands. */
  lemma LeaveIsStages(ks: Keyspace, now: int, socketId: string)
    requires FullyRegistered(ks, now, socketId)
    ensures var stages := DisconnectStages(ks, now, socketId);
            var username := TextAt(ks, now, SocketUsername(socketId)).value;
            var auctionId := NumberAt(ks, now, SocketAuctionId(socketId)).value;
            && Unregistered(ks, now, socketId)
               == (if GoesOffline(ks, now, socketId) then stages.online else stages.forward)
            && (GoesOffline(ks, now, socketId) <==>
                  MembersAt(stages.forward, now, UserInAuction(username, auctionId)) == {})
  {
    hide SRem, MembersAt;
    assert DisconnectStages(ks, now, socketId).forward == Removed(ks, now, socketId);
  }

  lemma LeaveEffect(ks: Keyspace, now: int, socketId: string)
    requires FullyRegistered(ks, now, socketId)
    ensures SetsLeft(ks, Unregistered(ks, now, socketId), now, socketId)
    ensures KeysLeft(ks, Unregistered(ks, now, socketId), socketId)
    ensures GoesOffline(ks, now, socketId) <==>
            LeaveLoses(ks, now, socketId, OnlineUsers(NumberAt(ks, now, SocketAuctionId(socketId)).value)) != {}
  {
    hide Unregistered, Removed, GoesOffline, DisconnectStages, SRem, MembersAt, TextAt, NumberAt;
    var username := TextAt(ks, now, SocketUsername(socketId)).value;
    var auctionId := NumberAt(ks, now, SocketAuctionId(socketId)).value;
    var after := Unregistered(ks, now, socketId);
    LeaveIsStages(ks, now, socketId);
    StagesOnKey(ks, now, socketId, UserInAuction(username, auctionId));
    assert GoesOffline(ks, now, socketId) <==>
           MembersAt(ks, now, UserInAuction(username, auctionId)) <= {socketId};
    forall k
      ensures KeyLeft(ks, after, socketId, k)
      ensures !IsForward(k) ==> MembersAt(after, now, k) == MembersAt(ks, now, k) - LeaveLoses(ks, now, socketId, k)
    {
      StagesOnKey(ks, now, socketId, k);
    }
  }

  /** Keys that are no part of the registry: cached rooms and bid timestamps. */
  predicate IsOutside(k: Key) {
    k.AuctionState? || k.BidTimestamps?
  }

  ghost predicate OutsideUntouched(ks: Keyspace, after: Keyspace) {
    forall k | IsOutside(k) :: (k in after <==> k in ks) && (k in ks ==> after[k] == ks[k])
  }

  lemma RemLeavesOutside(ks: Keyspace, now: int, k: Option<Key>, member: string)
    requires k.Some? ==> !IsOutside(k.value)
    ensures OutsideUntouched(ks, Without(ks, now, k, member))
  {
  }

  lemma RemovedLeavesOutside(ks: Keyspace, now: int, socketId: string)
    requires IsRegistered(ks, now, socketId)
    ensures OutsideUntouched(ks, Removed(ks, now, socketId))
  {
    hide SRem, TextAt, NumberAt, OutsideUntouched;
    var u := TextAt(ks, now, SocketUsername(socketId)).value;
    var room := RoomKey(ks, now, socketId, u);
    var ks1 := Without(ks, now, IpKey(ks, now, socketId), socketId);
    var ks2 := Without(ks1, now, Some(UserSockets(u)), socketId);
    RemLeavesOutside(ks, now, IpKey(ks, now, socketId), socketId);
    RemLeavesOutside(ks1, now, Some(UserSockets(u)), socketId);
    RemLeavesOutside(ks2, now, room, socketId);
    var gone := {SocketIp(socketId), SocketUsername(socketId), SocketAuctionId(socketId)};
    DeletionLeavesOutside(ks, ks1, ks2, Without(ks2, now, room, socketId), gone);
  }

  lemma DeletionLeavesOutside(ks: Keyspace, ks1: Keyspace, ks2: Keyspace, ks3: Keyspace, gone: set<Key>)
    requires OutsideUntouched(ks, ks1) && OutsideUntouched(ks1, ks2) && OutsideUntouched(ks2, ks3)
    requires forall k | k in gone :: !IsOutside(k)
    ensures OutsideUntouched(ks, ks3 - gone)
  {
  }

  /** Neither transaction touches a key outside the registry. */
  lemma RegistryLeavesOutside(
    ks: Keyspace, now: int, ttl: int, username: string, socketId: string, ip: string, auctionId: AuctionId
  )
    ensures OutsideUntouched(ks, Registered(ks, now, ttl, username, socketId, ip, auctionId))
    ensures OutsideUntouched(ks, Unregistered(ks, now, socketId))
  {
    hide Registered, Removed, SRem, GoesOffline, TextAt, NumberAt;
    JoinLeavesOutside(ks, now, ttl, username, socketId, ip, auctionId);
    if IsRegistered(ks, now, socketId) {
      var u := TextAt(ks, now, SocketUsername(socketId)).value;
      var a := NumberAt(ks, now, SocketAuctionId(socketId));
      RemovedLeavesOutside(ks, now, socketId);
      RemLeavesOutside(Removed(ks, now, socketId), now, if a.Some? then Some(OnlineUsers(a.value)) else None, u);
    }
  }

  lemma JoinLeavesOutside(
    ks: Keyspace, now: int, ttl: int, username: string, socketId: string, ip: string, auctionId: AuctionId
  )
    ensures OutsideUntouched(ks, Registered(ks, now, ttl, username, socketId, ip, auctionId))
  {
  }

  lemma UnknownSocketIsLeftAlone(ks: Keyspace, now: int, socketId: string)
    requires var username := TextAt(ks, now, SocketUsername(socketId)); username.None? || username.value == ""
    ensures Unregistered(ks, now, socketId) == ks && OfflineEvents(ks, now, socketId) == []
  {
  }
}
