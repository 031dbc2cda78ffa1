/**
 Sockets that outlive their registration.  Joins renew the whole set of their user and address, while a disconnect
 leaves a socket alone whose username key has expired: such a socket stays listed, and counts against the limits.
 */
module RegistryLingering {
  import opened AuctionRows
  import opened Keyspace
  import opened Registry
  import opened RegistryExpiry
  import opened Wrappers

  /** What a run tells of one scope and one socket in it, without looking at a key. */
  datatype Chronicle = Chronicle(
    clock: int,
    lastJoin: Option<int>,     // in the scope, by any socket
    listedFrom: Option<int>)   // the socket's own last join, while the scope's set lists it

  function Told(clients: Clients, ttl: int, c: Chronicle, op: Operation, scope: Scope, id: string): Chronicle {
    match op
    case Join(socketId, _) =>
      c.(lastJoin := if IsIn(clients(socketId), scope) then Some(c.clock) else c.lastJoin,
         listedFrom := if socketId == id then Some(c.clock) else c.listedFrom)
    case Leave(socketId) =>
      if socketId == id && c.listedFrom.Some? && c.clock < c.listedFrom.value + ttl then c.(listedFrom := None) else c
    case Wait(ms) =>
      var clock := c.clock + ms;
      c.(clock := clock,
         listedFrom := if c.lastJoin.Some? && clock < c.lastJoin.value + ttl then c.listedFrom else None)
  }

  function Tell(clients: Clients, ttl: int, now: int, ops: seq<Operation>, scope: Scope, id: string): Chronicle
    decreases |ops|
  {
    if ops == [] then Chronicle(now, None, None)
    else Told(clients, ttl, Tell(clients, ttl, now, ops[..|ops| - 1], scope, id), ops[|ops| - 1], scope, id)
  }

  /** The chronicle and the keys agree. */
  ghost predicate Tallies(ttl: int, ks: Keyspace, now: int, c: Chronicle, scope: Scope, id: string) {
    && c.clock == now
    && (c.lastJoin.Some? ==> c.lastJoin.value <= now)
    && (c.listedFrom.Some? ==> c.lastJoin.Some? && c.listedFrom.value <= c.lastJoin.value)
    && (KeyOf(scope) in ks ==> c.lastJoin.Some? && ks[KeyOf(scope)].deadline == Some(c.lastJoin.value + ttl))
    && (id in MembersAt(ks, now, KeyOf(scope)) <==> c.listedFrom.Some?)
    && (Live(ks, now, SocketUsername(id)) <==> c.listedFrom.Some? && now < c.listedFrom.value + ttl)
    && (Live(ks, now, SocketUsername(id)) ==> ks[SocketUsername(id)].deadline == Some(c.listedFrom.value + ttl))
  }

  /** What a join does to a scope's set and to the key of a socket. */
  lemma JoinOnScope(
    ks: Keyspace, now: int, ttl: int, c: Client, socketId: string, auctionId: AuctionId, scope: Scope, id: string
  )
    requires 0 < ttl
    ensures var after := Registered(ks, now, ttl, c.username, socketId, c.ip, auctionId);
            && (if IsIn(c, scope) then KeyOf(scope) in after && after[KeyOf(scope)].deadline == Some(now + ttl)
                else (KeyOf(scope) in after <==> KeyOf(scope) in ks)
                     && (KeyOf(scope) in ks ==> after[KeyOf(scope)] == ks[KeyOf(scope)]))
            && MembersAt(after, now, KeyOf(scope))
               == MembersAt(ks, now, KeyOf(scope)) + (if IsIn(c, scope) then {socketId} else {})
            && (if id == socketId then
                  SocketUsername(id) in after && after[SocketUsername(id)].deadline == Some(now + ttl)
                else (SocketUsername(id) in after <==> SocketUsername(id) in ks)
                     && (SocketUsername(id) in ks ==> after[SocketUsername(id)] == ks[SocketUsername(id)]))
  {
  }

  lemma JoinTallies(
    clients: Clients, ttl: int, ks: Keyspace, now: int, c: Chronicle, socketId: string, auctionId: AuctionId,
    scope: Scope, id: string
  )
    requires 0 < ttl && IsIn(clients(id), scope) && Tallies(ttl, ks, now, c, scope, id)
    ensures var client := clients(socketId);
            var after := Registered(ks, now, ttl, client.username, socketId, client.ip, auctionId);
            Tallies(ttl, after, now, Told(clients, ttl, c, Join(socketId, auctionId), scope, id), scope, id)
  {
    hide Registered, MembersAt;
    JoinOnScope(ks, now, ttl, clients(socketId), socketId, auctionId, scope, id);
  }

  /** What a disconnect of a registered socket does to them. */
  lemma LeaveOnScope(clients: Clients, ks: Keyspace, now: int, socketId: string, scope: Scope, id: string)
    requires AllBacked(clients, ks, now) && IsRegistered(ks, now, socketId)
    ensures var after := Unregistered(ks, now, socketId);
            && (KeyOf(scope) in after ==>
                  KeyOf(scope) in ks && after[KeyOf(scope)].deadline == ks[KeyOf(scope)].deadline)
            && MembersAt(after, now, KeyOf(scope))
               == MembersAt(ks, now, KeyOf(scope)) - (if IsIn(clients(socketId), scope) then {socketId} else {})
            && (SocketUsername(id) in after <==> SocketUsername(id) in ks && id != socketId)
            && (SocketUsername(id) in after ==> after[SocketUsername(id)] == ks[SocketUsername(id)])
  {
    hide Unregistered, MembersAt, AllBacked;
    BackedIsFullyRegistered(clients, ks, now, socketId);
    LeaveEffect(ks, now, socketId);
  }

  lemma RegisteredIsLive(clients: Clients, ks: Keyspace, now: int, socketId: string)
    requires AllBacked(clients, ks, now) && clients(socketId).username != ""
    ensures IsRegistered(ks, now, socketId) <==> Live(ks, now, SocketUsername(socketId))
  {
  }

  lemma LeaveTallies(
    clients: Clients, ttl: int, ks: Keyspace, now: int, c: Chronicle, socketId: string, scope: Scope, id: string
  )
    requires 0 < ttl && IsIn(clients(id), scope) && clients(socketId).username != ""
    requires AllBacked(clients, ks, now) && Tallies(ttl, ks, now, c, scope, id)
    ensures Tallies(ttl, Unregistered(ks, now, socketId), now,
                    Told(clients, ttl, c, Leave(socketId), scope, id), scope, id)
  {
    hide Unregistered, MembersAt, AllBacked, IsRegistered;
    RegisteredIsLive(clients, ks, now, socketId);
    if IsRegistered(ks, now, socketId) {
      LeaveOnScope(clients, ks, now, socketId, scope, id);
    } else {
      UnknownSocketIsLeftAlone(ks, now, socketId);
    }
  }

  lemma WaitTallies(clients: Clients, ttl: int, ks: Keyspace, now: int, c: Chronicle, ms: nat, scope: Scope, id: string)
    requires 0 < ttl && Tallies(ttl, ks, now, c, scope, id)
    ensures Tallies(ttl, ks, now + ms, Told(clients, ttl, c, Wait(ms), scope, id), scope, id)
  {
  }

  lemma {:induction false} RunTallies(
    clients: Clients, ttl: int, now: int, ops: seq<Operation>, scope: Scope, id: string
  )
    requires 0 < ttl && IsIn(clients(id), scope) && forall socketId :: clients(socketId).username != ""
    ensures var s := Run(clients, ttl, now, ops);
            Tallies(ttl, s.ks, s.now, Tell(clients, ttl, now, ops, scope, id), scope, id)
    decreases |ops|
  {
    if ops == [] {
    } else {
      hide Tallies, Registered, Unregistered, AllBacked;
      var init := ops[..|ops| - 1];
      var s, c := Run(clients, ttl, now, init), Tell(clients, ttl, now, init, scope, id);
      RunTallies(clients, ttl, now, init, scope, id);
      match ops[|ops| - 1] {
        case Join(socketId, auctionId) => JoinTallies(clients, ttl, s.ks, s.now, c, socketId, auctionId, scope, id);
        case Leave(socketId) =>
          RunKeepsBacked(clients, ttl, now, init);
          LeaveTallies(clients, ttl, s.ks, s.now, c, socketId, scope, id);
        case Wait(ms) => WaitTallies(clients, ttl, s.ks, s.now, c, ms, scope, id);
      }
    }
  }

  // ----- The chronicle in closed form -----

  function ClockAfter(now: int, ops: seq<Operation>): int
    decreases |ops|
  {
    if ops == [] then now
    else ClockAfter(now, ops[..|ops| - 1]) + if ops[|ops| - 1].Wait? then ops[|ops| - 1].ms else 0
  }

  /** A socket of the scope has joined less than one time to live ago. */
  ghost predicate JoinedLately(clients: Clients, ttl: int, now: int, ops: seq<Operation>, scope: Scope) {
    exists k :: 0 <= k < |ops| && IsLateJoin(clients, ttl, now, ops, scope, k)
  }

  predicate IsLateJoin(clients: Clients, ttl: int, now: int, ops: seq<Operation>, scope: Scope, k: int)
    requires 0 <= k < |ops|
  {
    && ops[k].Join? && IsIn(clients(ops[k].socketId), scope)
    && ClockAfter(now, ops) < ClockAfter(now, ops[..k]) + ttl
  }

  /**
   Operation i is the socket's last join; it has not left within one time to live of it, when its username key would
   still be there; and since then the scope's joins have never been a time to live apart.
   */
  ghost predicate ListedSince(
    clients: Clients, ttl: int, now: int, ops: seq<Operation>, scope: Scope, id: string, i: int
  ) {
    && 0 <= i < |ops| && ops[i].Join? && ops[i].socketId == id
    && (forall j | i < j < |ops| && ops[j].Join? :: ops[j].socketId != id)
    && (forall j | i < j < |ops| && ops[j] == Leave(id) :: ClockAfter(now, ops[..i]) + ttl <= ClockAfter(now, ops[..j]))
    && (forall j | i < j <= |ops| :: JoinedLately(clients, ttl, now, ops[..j], scope))
  }

  predicate JoinsScope(clients: Clients, ops: seq<Operation>, scope: Scope, k: int)
    requires 0 <= k < |ops|
  {
    ops[k].Join? && IsIn(clients(ops[k].socketId), scope)
  }

  ghost predicate IsLastJoin(clients: Clients, now: int, ops: seq<Operation>, scope: Scope, last: Option<int>) {
    && (last.Some? ==>
          exists k :: 0 <= k < |ops| && JoinsScope(clients, ops, scope, k) && ClockAfter(now, ops[..k]) == last.value)
    && (forall k | 0 <= k < |ops| && JoinsScope(clients, ops, scope, k) ::
          last.Some? && ClockAfter(now, ops[..k]) <= last.value)
  }

  lemma LastJoinOneMore(
    clients: Clients, now: int, init: seq<Operation>, op: Operation, scope: Scope, last: Option<int>
  )
    requires IsLastJoin(clients, now, init, scope, last)
    requires last.Some? ==> last.value <= ClockAfter(now, init)
    ensures var last' := if op.Join? && IsIn(clients(op.socketId), scope) then Some(ClockAfter(now, init)) else last;
            IsLastJoin(clients, now, init + [op], scope, last')
  {
    var ops := init + [op];
    var last' := if op.Join? && IsIn(clients(op.socketId), scope) then Some(ClockAfter(now, init)) else last;
    assert ops[..|init|] == init;
    forall k | 0 <= k < |ops| && JoinsScope(clients, ops, scope, k)
      ensures last'.Some? && ClockAfter(now, ops[..k]) <= last'.value
    {
      if k < |init| {
        assert ops[..k] == init[..k] && JoinsScope(clients, init, scope, k);
      }
    }
    if last'.Some? {
      if op.Join? && IsIn(clients(op.socketId), scope) {
        assert JoinsScope(clients, ops, scope, |init|);
      } else {
        var k :| 0 <= k < |init| && JoinsScope(clients, init, scope, k) && ClockAfter(now, init[..k]) == last.value;
        assert ops[..k] == init[..k] && JoinsScope(clients, ops, scope, k);
      }
    }
  }

  lemma LatelyIff(clients: Clients, ttl: int, now: int, ops: seq<Operation>, scope: Scope, last: Option<int>)
    requires IsLastJoin(clients, now, ops, scope, last)
    ensures JoinedLately(clients, ttl, now, ops, scope) <==> last.Some? && ClockAfter(now, ops) < last.value + ttl
  {
    if last.Some? && ClockAfter(now, ops) < last.value + ttl {
      var k :| 0 <= k < |ops| && JoinsScope(clients, ops, scope, k) && ClockAfter(now, ops[..k]) == last.value;
      assert IsLateJoin(clients, ttl, now, ops, scope, k);
    }
    if JoinedLately(clients, ttl, now, ops, scope) {
      var k :| 0 <= k < |ops| && IsLateJoin(clients, ttl, now, ops, scope, k);
      assert JoinsScope(clients, ops, scope, k);
    }
  }

  /** What one more operation does to an earlier listing. */
  lemma ListedOneMore(
    clients: Clients, ttl: int, now: int, init: seq<Operation>, op: Operation, scope: Scope, id: string, i: int
  )
    requires 0 <= i < |init|
    ensures ListedSince(clients, ttl, now, init + [op], scope, id, i) <==>
            && ListedSince(clients, ttl, now, init, scope, id, i)
            && (op.Join? ==> op.socketId != id)
            && (op == Leave(id) ==> ClockAfter(now, init[..i]) + ttl <= ClockAfter(now, init))
            && JoinedLately(clients, ttl, now, init + [op], scope)
  {
    hide ClockAfter, JoinedLately;
    var ops := init + [op];
    PrefixOfPrefix(init, op);
    if ListedSince(clients, ttl, now, ops, scope, id, i) {
      assert JoinedLately(clients, ttl, now, ops[..|ops|], scope);
      forall j | i < j <= |init| ensures JoinedLately(clients, ttl, now, init[..j], scope) {
        assert JoinedLately(clients, ttl, now, ops[..j], scope);
      }
      forall j | i < j < |init| ensures init[j].Join? ==> init[j].socketId != id {
        assert ops[j] == init[j];
      }
      forall j | i < j < |init| && init[j] == Leave(id)
        ensures ClockAfter(now, init[..i]) + ttl <= ClockAfter(now, init[..j])
      {
        assert ops[j] == init[j] && ops[..j] == init[..j];
      }
      assert ops[|init|] == op;
    } else if ListedSince(clients, ttl, now, init, scope, id, i) && JoinedLately(clients, ttl, now, ops, scope) {
      forall j | i < j <= |ops| ensures JoinedLately(clients, ttl, now, ops[..j], scope) {
        if j <= |init| {
          assert JoinedLately(clients, ttl, now, init[..j], scope);
        }
      }
    }
  }

  lemma PrefixOfPrefix(init: seq<Operation>, op: Operation)
    ensures var ops := init + [op];
            && ops[..|ops|] == ops
            && (forall j | 0 <= j <= |init| :: ops[..j] == init[..j])
            && init[..|init|] == init
  {
  }

  /** A join lists its socket. */
  lemma ListedAfresh(
    clients: Clients, ttl: int, now: int, init: seq<Operation>, op: Operation, scope: Scope, id: string
  )
    requires 0 < ttl && IsIn(clients(id), scope)
    ensures ListedSince(clients, ttl, now, init + [op], scope, id, |init|) <==> op.Join? && op.socketId == id
  {
    var ops := init + [op];
    assert ops[..|init|] == init && ops[..|ops|] == ops;
    if op.Join? && op.socketId == id {
      assert ClockAfter(now, ops) == ClockAfter(now, init);
      assert IsLateJoin(clients, ttl, now, ops, scope, |init|);
    }
  }

  ghost predicate ListedAt(
    clients: Clients, ttl: int, now: int, ops: seq<Operation>, scope: Scope, id: string, from: int, i: int
  ) {
    ListedSince(clients, ttl, now, ops, scope, id, i) && 0 <= i < |ops| && ClockAfter(now, ops[..i]) == from
  }

  ghost predicate IsListing(
    clients: Clients, ttl: int, now: int, ops: seq<Operation>, scope: Scope, id: string, from: Option<int>
  ) {
    && (from.Some? ==> exists i :: ListedAt(clients, ttl, now, ops, scope, id, from.value, i))
    && (forall i | ListedSince(clients, ttl, now, ops, scope, id, i) ::
          from.Some? && ListedAt(clients, ttl, now, ops, scope, id, from.value, i))
  }

  /** The chronicle says what the closed form says. */
  ghost predicate ToldRight(
    clients: Clients, ttl: int, now: int, ops: seq<Operation>, scope: Scope, id: string, c: Chronicle
  ) {
    && c.clock == ClockAfter(now, ops)
    && (c.lastJoin.Some? ==> c.lastJoin.value <= c.clock)
    && IsLastJoin(clients, now, ops, scope, c.lastJoin)
    && IsListing(clients, ttl, now, ops, scope, id, c.listedFrom)
    && (c.listedFrom.Some? ==> JoinedLately(clients, ttl, now, ops, scope))
  }

  lemma ListingOneMore(
    clients: Clients, ttl: int, now: int, init: seq<Operation>, op: Operation, scope: Scope, id: string, c: Chronicle
  )
    requires 0 < ttl && IsIn(clients(id), scope)
    requires ToldRight(clients, ttl, now, init, scope, id, c)
    requires IsLastJoin(clients, now, init + [op], scope, Told(clients, ttl, c, op, scope, id).lastJoin)
    ensures var c' := Told(clients, ttl, c, op, scope, id);
            && IsListing(clients, ttl, now, init + [op], scope, id, c'.listedFrom)
            && (c'.listedFrom.Some? ==> JoinedLately(clients, ttl, now, init + [op], scope))
  {
    var ops, c' := init + [op], Told(clients, ttl, c, op, scope, id);
    assert ops[..|init|] == init;
    LatelyIff(clients, ttl, now, init, scope, c.lastJoin);
    LatelyIff(clients, ttl, now, ops, scope, c'.lastJoin);
    ListedAfresh(clients, ttl, now, init, op, scope, id);
    assert ClockAfter(now, ops) == c'.clock;
    hide ListedSince, IsLastJoin, JoinedLately, ClockAfter, IsListing, ListedAt;
    if op.Join? && op.socketId == id {
      ListingAfresh(clients, ttl, now, init, op, scope, id);
    } else {
      ListingKept(clients, ttl, now, init, op, scope, id, c.listedFrom);
    }
  }

  /** Unless the socket joins, its listing either goes on or ends with the operation. */
  lemma ListingKept(
    clients: Clients, ttl: int, now: int, init: seq<Operation>, op: Operation, scope: Scope, id: string,
    from: Option<int>
  )
    requires 0 < ttl && IsIn(clients(id), scope) && IsListing(clients, ttl, now, init, scope, id, from)
    requires !(op.Join? && op.socketId == id)
    ensures var stays := from.Some? && JoinedLately(clients, ttl, now, init + [op], scope)
                         && (op == Leave(id) ==> from.value + ttl <= ClockAfter(now, init));
            IsListing(clients, ttl, now, init + [op], scope, id, if stays then from else None)
  {
    var ops := init + [op];
    PrefixOfPrefix(init, op);
    ListedAfresh(clients, ttl, now, init, op, scope, id);
    hide ListedSince, JoinedLately, ClockAfter;
    forall i | ListedSince(clients, ttl, now, ops, scope, id, i)
      ensures from.Some? && ListedAt(clients, ttl, now, ops, scope, id, from.value, i)
      ensures JoinedLately(clients, ttl, now, ops, scope)
      ensures op == Leave(id) ==> from.value + ttl <= ClockAfter(now, init)
    {
      ListedIsInside(clients, ttl, now, ops, scope, id, i);
      ListedOneMore(clients, ttl, now, init, op, scope, id, i);
      assert ListedAt(clients, ttl, now, init, scope, id, from.value, i);
    }
    if from.Some? {
      var i :| ListedAt(clients, ttl, now, init, scope, id, from.value, i);
      ListedOneMore(clients, ttl, now, init, op, scope, id, i);
      assert ListedSince(clients, ttl, now, ops, scope, id, i)
             ==> ListedAt(clients, ttl, now, ops, scope, id, from.value, i);
    }
  }

  /** A join of the socket is its only listing. */
  lemma ListingAfresh(
    clients: Clients, ttl: int, now: int, init: seq<Operation>, op: Operation, scope: Scope, id: string
  )
    requires 0 < ttl && IsIn(clients(id), scope) && op.Join? && op.socketId == id
    ensures IsListing(clients, ttl, now, init + [op], scope, id, Some(ClockAfter(now, init)))
  {
    var ops := init + [op];
    PrefixOfPrefix(init, op);
    ListedAfresh(clients, ttl, now, init, op, scope, id);
    hide ListedSince, ClockAfter;
    assert ListedAt(clients, ttl, now, ops, scope, id, ClockAfter(now, init), |init|);
    forall i | ListedSince(clients, ttl, now, ops, scope, id, i) ensures i == |init| {
      ListedIsInside(clients, ttl, now, ops, scope, id, i);
      if i < |init| {
        ListedOneMore(clients, ttl, now, init, op, scope, id, i);
      }
    }
  }

  lemma ListedIsInside(
    clients: Clients, ttl: int, now: int, ops: seq<Operation>, scope: Scope, id: string, i: int
  )
    requires ListedSince(clients, ttl, now, ops, scope, id, i)
    ensures 0 <= i < |ops|
  {
  }

  lemma {:induction false} TellIsRight(
    clients: Clients, ttl: int, now: int, ops: seq<Operation>, scope: Scope, id: string
  )
    requires 0 < ttl && IsIn(clients(id), scope)
    ensures ToldRight(clients, ttl, now, ops, scope, id, Tell(clients, ttl, now, ops, scope, id))
    decreases |ops|
  {
    if ops == [] {
    } else {
      hide IsListing, IsLastJoin, JoinedLately;
      var init, op := ops[..|ops| - 1], ops[|ops| - 1];
      assert init + [op] == ops;
      var c := Tell(clients, ttl, now, init, scope, id);
      TellIsRight(clients, ttl, now, init, scope, id);
      LastJoinOneMore(clients, now, init, op, scope, c.lastJoin);
      ListingOneMore(clients, ttl, now, init, op, scope, id, c);
    }
  }

  /** In every run a set lists a socket of its scope exactly when some join of it says so. */
  lemma ListedIff(clients: Clients, ttl: int, now: int, ops: seq<Operation>, scope: Scope, id: string)
    requires 0 < ttl && IsIn(clients(id), scope) && forall socketId :: clients(socketId).username != ""
    ensures var s := Run(clients, ttl, now, ops);
            id in MembersAt(s.ks, s.now, KeyOf(scope)) <==>
            exists i :: ListedSince(clients, ttl, now, ops, scope, id, i)
  {
    hide Run, Tell, ListedSince, MembersAt;
    RunTallies(clients, ttl, now, ops, scope, id);
    TellIsRight(clients, ttl, now, ops, scope, id);
  }

  /** It lists one without a live username key exactly when that join lies a time to live back. */
  lemma LingersIff(clients: Clients, ttl: int, now: int, ops: seq<Operation>, scope: Scope, id: string)
    requires 0 < ttl && IsIn(clients(id), scope) && forall socketId :: clients(socketId).username != ""
    ensures var s := Run(clients, ttl, now, ops);
            id in MembersAt(s.ks, s.now, KeyOf(scope)) && !Live(s.ks, s.now, SocketUsername(id))
            <==> exists i :: ListedSince(clients, ttl, now, ops, scope, id, i)
                             && ClockAfter(now, ops[..i]) + ttl <= ClockAfter(now, ops)
  {
    hide Run, Tell, ListedSince, MembersAt, Live, ClockAfter;
    RunTallies(clients, ttl, now, ops, scope, id);
    TellIsRight(clients, ttl, now, ops, scope, id);
  }

  lemma TellOneMore(
    clients: Clients, ttl: int, now: int, ops: seq<Operation>, op: Operation, scope: Scope, id: string
  )
    ensures Tell(clients, ttl, now, ops + [op], scope, id)
            == Told(clients, ttl, Tell(clients, ttl, now, ops, scope, id), op, scope, id)
  {
    assert (ops + [op])[..|ops|] == ops;
  }

  /** It happens: a second socket's join outlives the first socket's keys, and the first one's disconnect is ignored. */
  lemma LingeringHappens(
    clients: Clients, ttl: int, now: int, first: string, second: string, auctionId: AuctionId, scope: Scope
  )
    requires 1 < ttl && forall socketId :: clients(socketId).username != ""
    requires first != second && IsIn(clients(first), scope) && IsIn(clients(second), scope)
    ensures var ops := [Join(first, auctionId)] + [Wait(ttl - 1)] + [Join(second, auctionId)]
                       + [Wait(1)] + [Leave(first)];
            var s := Run(clients, ttl, now, ops);
            first in MembersAt(s.ks, s.now, KeyOf(scope)) && !Live(s.ks, s.now, SocketUsername(first))
  {
    var ops1 := [Join(first, auctionId)];
    var ops2 := ops1 + [Wait(ttl - 1)];
    var ops3 := ops2 + [Join(second, auctionId)];
    var ops4 := ops3 + [Wait(1)];
    RunTallies(clients, ttl, now, ops4 + [Leave(first)], scope, first);
    assert [] + ops1 == ops1 && Tell(clients, ttl, now, [], scope, first) == Chronicle(now, None, None);
    hide Tell, Run, MembersAt, Live;
    TellOneMore(clients, ttl, now, [], ops1[0], scope, first);
    TellOneMore(clients, ttl, now, ops1, Wait(ttl - 1), scope, first);
    TellOneMore(clients, ttl, now, ops2, Join(second, auctionId), scope, first);
    TellOneMore(clients, ttl, now, ops3, Wait(1), scope, first);
    TellOneMore(clients, ttl, now, ops4, Leave(first), scope, first);
  }
}
