/**
 The connection limiter.  A join is let through while its user's and its address's sets are not above their
 maxima, and is registered later; nothing holds the place it was given in between.
 */
module ConnectionLimit {
  import opened AuctionRows
  import opened Counting
  import opened Keyspace
  import opened Registry
  import opened RegistryExpiry
  import opened RegistryLingering
  import opened Wrappers

  datatype Progress = Arrived | UserChecked | Cleared | Done | Refused

  /** One joinAuction call on its way through the guard to its registration, or to finding no auction. */
  datatype Attempt = Attempt(socketId: string, auctionId: AuctionId, progress: Progress)

  datatype Limits = Limits(maxPerUser: nat, maxPerIp: nat, ttl: nat)

  datatype Traffic = Traffic(ks: Keyspace, now: int, attempts: seq<Attempt>)

  datatype Step =
    | Arrive(socketId: string, auctionId: AuctionId)
    | CheckUser(i: nat)
    | CheckIp(i: nat)
    | Register(i: nat)
    | Abandon(i: nat)   // there is no such auction: the handler returns without registering
    | Disconnect(socketId: string)
    | Pass(ms: nat)

  function MaxOf(limits: Limits, scope: Scope): nat {
    if scope.OfUser? then limits.maxPerUser else limits.maxPerIp
  }

  function Sockets(s: Traffic, scope: Scope): set<string> {
    MembersAt(s.ks, s.now, KeyOf(scope))
  }

  /** Past the scope's check and not registered yet. */
  function Pending(clients: Clients, scope: Scope): Attempt -> bool {
    (a: Attempt) =>
      (a.progress.Cleared? || (a.progress.UserChecked? && scope.OfUser?)) && IsIn(clients(a.socketId), scope)
  }

  function Moved(s: Traffic, i: nat, progress: Progress): Traffic
    requires i < |s.attempts|
  {
    s.(attempts := s.attempts[i := s.attempts[i].(progress := progress)])
  }

  function Next(clients: Clients, limits: Limits, s: Traffic, step: Step): Traffic {
    match step
    case Arrive(socketId, auctionId) => s.(attempts := s.attempts + [Attempt(socketId, auctionId, Arrived)])
    case CheckUser(i) =>
      if i < |s.attempts| && s.attempts[i].progress.Arrived? then
        var count := |Sockets(s, OfUser(clients(s.attempts[i].socketId).username))|;
        Moved(s, i, if count > limits.maxPerUser then Refused else UserChecked)
      else s
    case CheckIp(i) =>
      if i < |s.attempts| && s.attempts[i].progress.UserChecked? then
        var count := |Sockets(s, OfIp(clients(s.attempts[i].socketId).ip))|;
        Moved(s, i, if count > limits.maxPerIp then Refused else Cleared)
      else s
    case Register(i) =>
      if i < |s.attempts| && s.attempts[i].progress.Cleared? then
        var a := s.attempts[i];
        var c := clients(a.socketId);
        Moved(s, i, Done).(ks := Registered(s.ks, s.now, limits.ttl, c.username, a.socketId, c.ip, a.auctionId))
      else s
    case Abandon(i) =>
      if i < |s.attempts| && s.attempts[i].progress.Cleared? then
        Moved(s, i, Refused)
      else s
    case Disconnect(socketId) => s.(ks := Unregistered(s.ks, s.now, socketId))
    case Pass(ms) => s.(now := s.now + ms)
  }

  function Run(clients: Clients, limits: Limits, now: int, steps: seq<Step>): Traffic
    decreases |steps|
  {
    if steps == [] then Traffic(map[], now, [])
    else Next(clients, limits, Run(clients, limits, now, steps[..|steps| - 1]), steps[|steps| - 1])
  }

  // ----- Only a registration makes a set grow, by its own socket -----

  lemma RemOnlyRemoves(ks: Keyspace, now: int, key: Option<Key>, member: string, k: Key)
    ensures MembersAt(Without(ks, now, key, member), now, k) <= MembersAt(ks, now, k)
  {
  }

  lemma DeletionOnlyRemoves(ks: Keyspace, now: int, gone: set<Key>, k: Key)
    ensures MembersAt(ks - gone, now, k) <= MembersAt(ks, now, k)
  {
  }

  lemma DisconnectOnlyRemoves(ks: Keyspace, now: int, socketId: string, k: Key)
    ensures MembersAt(Unregistered(ks, now, socketId), now, k) <= MembersAt(ks, now, k)
  {
    if IsRegistered(ks, now, socketId) {
      hide SRem, MembersAt, GoesOffline;
      var username := TextAt(ks, now, SocketUsername(socketId)).value;
      var auctionId := NumberAt(ks, now, SocketAuctionId(socketId));
      var room := RoomKey(ks, now, socketId, username);
      var ks1 := Without(ks, now, IpKey(ks, now, socketId), socketId);
      var ks2 := Without(ks1, now, Some(UserSockets(username)), socketId);
      var ks3 := Without(ks2, now, room, socketId);
      var ks4 := Removed(ks, now, socketId);
      RemOnlyRemoves(ks, now, IpKey(ks, now, socketId), socketId, k);
      RemOnlyRemoves(ks1, now, Some(UserSockets(username)), socketId, k);
      RemOnlyRemoves(ks2, now, room, socketId, k);
      DeletionOnlyRemoves(ks3, now, {SocketIp(socketId), SocketUsername(socketId), SocketAuctionId(socketId)}, k);
      RemOnlyRemoves(ks4, now, if auctionId.Some? then Some(OnlineUsers(auctionId.value)) else None, username, k);
    }
  }

  predicate Registers(clients: Clients, s: Traffic, step: Step, scope: Scope) {
    && step.Register? && step.i < |s.attempts| && s.attempts[step.i].progress.Cleared?
    && IsIn(clients(s.attempts[step.i].socketId), scope)
  }

  lemma NextOnSet(clients: Clients, limits: Limits, s: Traffic, step: Step, scope: Scope)
    requires 0 < limits.ttl
    ensures |Sockets(Next(clients, limits, s, step), scope)|
            <= |Sockets(s, scope)| + if Registers(clients, s, step, scope) then 1 else 0
  {
    hide Registered, Unregistered;
    var before, after := Sockets(s, scope), Sockets(Next(clients, limits, s, step), scope);
    match step {
      case Register(i) =>
        if i < |s.attempts| && s.attempts[i].progress.Cleared? {
          var a := s.attempts[i];
          JoinEffectOnSet(s.ks, s.now, limits.ttl, clients(a.socketId), a.socketId, a.auctionId, KeyOf(scope));
        }
      case Disconnect(socketId) =>
        DisconnectOnlyRemoves(s.ks, s.now, socketId, KeyOf(scope));
        SubsetIsNoLarger(after, before);
      case Pass(ms) => SubsetIsNoLarger(after, before);
      case _ =>
    }
  }

  // ----- The bound -----

  /** Places taken and places promised. */
  function Load(clients: Clients, s: Traffic, scope: Scope): nat {
    |Sockets(s, scope)| + Count(s.attempts, Pending(clients, scope))
  }

  /** Either the check of this scope let an attempt through, or no place was promised and a registration used one up. */
  lemma NextOnPending(clients: Clients, limits: Limits, s: Traffic, step: Step, scope: Scope)
    ensures var t := Next(clients, limits, s, step);
            var before, after := Count(s.attempts, Pending(clients, scope)), Count(t.attempts, Pending(clients, scope));
            || (t.ks == s.ks && t.now == s.now && |Sockets(s, scope)| <= MaxOf(limits, scope))
            || after <= before - if Registers(clients, s, step, scope) then 1 else 0
  {
    hide Registered, Unregistered, MembersAt;
    var t := Next(clients, limits, s, step);
    var pending := Pending(clients, scope);
    if step.Arrive? {
      CountAppend(s.attempts, t.attempts[|s.attempts|], pending);
    } else if step.CheckUser? && step.i < |s.attempts| && s.attempts[step.i].progress.Arrived? {
      CountUpdate(s.attempts, step.i, t.attempts[step.i], pending);
    } else if step.CheckIp? && step.i < |s.attempts| && s.attempts[step.i].progress.UserChecked? {
      CountUpdate(s.attempts, step.i, t.attempts[step.i], pending);
    } else if (step.Register? || step.Abandon?) && step.i < |s.attempts| && t.attempts != s.attempts {
      CountUpdate(s.attempts, step.i, t.attempts[step.i], pending);
    } else {
      assert t.attempts == s.attempts;
    }
  }

  lemma NextKeepsLoad(clients: Clients, limits: Limits, s: Traffic, step: Step, scope: Scope, k: nat)
    requires 0 < limits.ttl
    requires Load(clients, s, scope) <= MaxOf(limits, scope) + k
    requires Count(Next(clients, limits, s, step).attempts, Pending(clients, scope)) <= k
    ensures Load(clients, Next(clients, limits, s, step), scope) <= MaxOf(limits, scope) + k
  {
    hide Next, MembersAt, Pending, Registers;
    NextOnSet(clients, limits, s, step, scope);
    NextOnPending(clients, limits, s, step, scope);
  }

  /** In every state of the run at most k attempts are pending in the scope. */
  ghost predicate AtMostPending(clients: Clients, limits: Limits, now: int, steps: seq<Step>, scope: Scope, k: nat) {
    forall n | 0 <= n <= |steps| :: Count(Run(clients, limits, now, steps[..n]).attempts, Pending(clients, scope)) <= k
  }

  lemma {:induction false} RunKeepsLoad(
    clients: Clients, limits: Limits, now: int, steps: seq<Step>, scope: Scope, k: nat
  )
    requires 0 < limits.ttl && AtMostPending(clients, limits, now, steps, scope, k)
    ensures Load(clients, Run(clients, limits, now, steps), scope) <= MaxOf(limits, scope) + k
    decreases |steps|
  {
    if steps == [] {
    } else {
      hide Registered, Unregistered, Load, Next;
      var init := steps[..|steps| - 1];
      assert forall n | 0 <= n <= |init| :: init[..n] == steps[..n];
      assert steps[..|steps|] == steps;
      RunKeepsLoad(clients, limits, now, init, scope, k);
      NextKeepsLoad(clients, limits, Run(clients, limits, now, init), steps[|steps| - 1], scope, k);
    }
  }

  /**
   Over any run of joins, disconnects and expiry: if at most k joins of a user, or of an address, are ever
   between their check and their registration, its registered set never exceeds its maximum plus k.
   */
  lemma ConnectionBound(clients: Clients, limits: Limits, now: int, steps: seq<Step>, scope: Scope, k: nat)
    requires 0 < limits.ttl && AtMostPending(clients, limits, now, steps, scope, k)
    ensures |Sockets(Run(clients, limits, now, steps), scope)| <= MaxOf(limits, scope) + k
  {
    RunKeepsLoad(clients, limits, now, steps, scope, k);
  }

  // ----- One join at a time reaches exactly one above the maximum -----

  /** A join that meets no other: arrival and both checks. */
  function Checked(clients: Clients, limits: Limits, s: Traffic, socketId: string, auctionId: AuctionId): Traffic {
    var i := |s.attempts|;
    var arrived := Next(clients, limits, s, Arrive(socketId, auctionId));
    Next(clients, limits, Next(clients, limits, arrived, CheckUser(i)), CheckIp(i))
  }

  predicate Admits(clients: Clients, limits: Limits, s: Traffic, socketId: string) {
    && |Sockets(s, OfUser(clients(socketId).username))| <= limits.maxPerUser
    && |Sockets(s, OfIp(clients(socketId).ip))| <= limits.maxPerIp
  }

  lemma CheckedIffAdmitted(clients: Clients, limits: Limits, s: Traffic, socketId: string, auctionId: AuctionId)
    ensures var t := Checked(clients, limits, s, socketId, auctionId);
            && t.ks == s.ks && t.now == s.now && |t.attempts| == |s.attempts| + 1
            && t.attempts[|s.attempts|]
               == Attempt(socketId, auctionId, if Admits(clients, limits, s, socketId) then Cleared else Refused)
  {
    hide MembersAt, Registered, Unregistered;
  }

  lemma RegisterOnSet(clients: Clients, limits: Limits, s: Traffic, i: nat, scope: Scope)
    requires 0 < limits.ttl && i < |s.attempts| && IsIn(clients(s.attempts[i].socketId), scope)
    ensures var t := Next(clients, limits, s, Register(i));
            && t.now == s.now
            && Sockets(t, scope)
               == Sockets(s, scope) + if s.attempts[i].progress.Cleared? then {s.attempts[i].socketId} else {}
  {
    hide Registered;
    var a := s.attempts[i];
    JoinEffectOnSet(s.ks, s.now, limits.ttl, clients(a.socketId), a.socketId, a.auctionId, KeyOf(scope));
  }

  /** Joins, disconnects and passing time, each over before the next begins.  A join may find no auction. */
  datatype Visit =
    | Joining(socketId: string, auctionId: AuctionId, found: bool)
    | Leaving(socketId: string)
    | Waiting(ms: nat)

  function AfterVisit(clients: Clients, limits: Limits, s: Traffic, visit: Visit): Traffic {
    match visit
    case Joining(socketId, auctionId, found) =>
      var i := |s.attempts|;
      Next(clients, limits, Checked(clients, limits, s, socketId, auctionId), if found then Register(i) else Abandon(i))
    case Leaving(socketId) => Next(clients, limits, s, Disconnect(socketId))
    case Waiting(ms) => Next(clients, limits, s, Pass(ms))
  }

  function RunVisits(clients: Clients, limits: Limits, now: int, visits: seq<Visit>): Traffic
    decreases |visits|
  {
    if visits == [] then Traffic(map[], now, [])
    else
      AfterVisit(clients, limits, RunVisits(clients, limits, now, visits[..|visits| - 1]), visits[|visits| - 1])
  }

  /** `t` has one attempt more than `s`. */
  predicate Follows(s: Traffic, t: Traffic) {
    |t.attempts| == |s.attempts| + 1 && t.attempts[..|s.attempts|] == s.attempts
  }

  lemma FollowsCount(s: Traffic, t: Traffic, pending: Attempt -> bool)
    requires Follows(s, t) && Count(s.attempts, pending) == 0
    ensures Count(t.attempts, pending) == if pending(t.attempts[|s.attempts|]) then 1 else 0
  {
  }

  lemma StepFollows(clients: Clients, limits: Limits, s: Traffic, t: Traffic, step: Step)
    requires Follows(s, t)
    requires var i := |s.attempts|; step in {CheckUser(i), CheckIp(i), Register(i), Abandon(i)}
    ensures Follows(s, Next(clients, limits, t, step))
  {
    hide MembersAt, Registered;
  }

  lemma ArrivalFollows(clients: Clients, limits: Limits, s: Traffic, socketId: string, auctionId: AuctionId)
    ensures Follows(s, Next(clients, limits, s, Arrive(socketId, auctionId)))
  {
  }

  /** After the last step of a join it is no longer pending. */
  lemma JoinIsOver(
    clients: Clients, limits: Limits, s: Traffic, socketId: string, auctionId: AuctionId, found: bool, scope: Scope
  )
    ensures var t := AfterVisit(clients, limits, s, Joining(socketId, auctionId, found));
            Follows(s, t) && !Pending(clients, scope)(t.attempts[|s.attempts|])
  {
    hide Checked, Registered;
    CheckedIffAdmitted(clients, limits, s, socketId, auctionId);
    CheckedFollows(clients, limits, s, socketId, auctionId);
  }

  lemma CheckedFollows(clients: Clients, limits: Limits, s: Traffic, socketId: string, auctionId: AuctionId)
    ensures Follows(s, Checked(clients, limits, s, socketId, auctionId))
  {
    hide Next, Follows;
    var i, arrived := |s.attempts|, Next(clients, limits, s, Arrive(socketId, auctionId));
    ArrivalFollows(clients, limits, s, socketId, auctionId);
    StepFollows(clients, limits, s, arrived, CheckUser(i));
    StepFollows(clients, limits, s, Next(clients, limits, arrived, CheckUser(i)), CheckIp(i));
  }

  lemma OneMoreStep(clients: Clients, limits: Limits, now: int, steps: seq<Step>, step: Step, scope: Scope, k: nat)
    requires AtMostPending(clients, limits, now, steps, scope, k)
    requires var t := Next(clients, limits, Run(clients, limits, now, steps), step);
             Count(t.attempts, Pending(clients, scope)) <= k
    ensures Run(clients, limits, now, steps + [step]) == Next(clients, limits, Run(clients, limits, now, steps), step)
    ensures AtMostPending(clients, limits, now, steps + [step], scope, k)
  {
    hide Next, Pending;
    var all := steps + [step];
    assert all[..|steps|] == steps && all[..|all|] == all;
    forall n | 0 <= n <= |all|
      ensures Count(Run(clients, limits, now, all[..n]).attempts, Pending(clients, scope)) <= k {
      assert n <= |steps| ==> all[..n] == steps[..n];
    }
  }

  lemma JoinIsARun(
    clients: Clients, limits: Limits, now: int, before: seq<Step>, socketId: string, auctionId: AuctionId, found: bool,
    scope: Scope
  ) returns (steps: seq<Step>)
    requires AtMostPending(clients, limits, now, before, scope, 1)
    requires Count(Run(clients, limits, now, before).attempts, Pending(clients, scope)) == 0
    ensures Run(clients, limits, now, steps)
            == AfterVisit(clients, limits, Run(clients, limits, now, before), Joining(socketId, auctionId, found))
    ensures AtMostPending(clients, limits, now, steps, scope, 1)
    ensures Count(Run(clients, limits, now, steps).attempts, Pending(clients, scope)) == 0
  {
    hide Run, Next, AtMostPending, Follows, Pending, Count;
    var s := Run(clients, limits, now, before);
    var i, pending := |s.attempts|, Pending(clients, scope);
    var last := if found then Register(i) else Abandon(i);
    var s1 := Next(clients, limits, s, Arrive(socketId, auctionId));
    var s2 := Next(clients, limits, s1, CheckUser(i));
    var s3 := Next(clients, limits, s2, CheckIp(i));
    ArrivalFollows(clients, limits, s, socketId, auctionId);
    StepFollows(clients, limits, s, s1, CheckUser(i));
    StepFollows(clients, limits, s, s2, CheckIp(i));
    JoinIsOver(clients, limits, s, socketId, auctionId, found, scope);
    FollowsCount(s, s1, pending);
    FollowsCount(s, s2, pending);
    FollowsCount(s, s3, pending);
    FollowsCount(s, Next(clients, limits, s3, last), pending);
    OneMoreStep(clients, limits, now, before, Arrive(socketId, auctionId), scope, 1);
    OneMoreStep(clients, limits, now, before + [Arrive(socketId, auctionId)], CheckUser(i), scope, 1);
    var checked := before + [Arrive(socketId, auctionId)] + [CheckUser(i)];
    OneMoreStep(clients, limits, now, checked, CheckIp(i), scope, 1);
    OneMoreStep(clients, limits, now, checked + [CheckIp(i)], last, scope, 1);
    steps := checked + [CheckIp(i)] + [last];
  }

  /** Visits are runs of the limiter's steps in which at most one attempt is ever pending. */
  lemma {:induction false} VisitsAreARun(
    clients: Clients, limits: Limits, now: int, visits: seq<Visit>, scope: Scope
  ) returns (steps: seq<Step>)
    ensures Run(clients, limits, now, steps) == RunVisits(clients, limits, now, visits)
    ensures AtMostPending(clients, limits, now, steps, scope, 1)
    ensures Count(Run(clients, limits, now, steps).attempts, Pending(clients, scope)) == 0
    decreases |visits|
  {
    hide AtMostPending, Pending;
    if visits == [] {
      steps := [];
      NothingPending(clients, limits, now, scope);
    } else {
      var before := VisitsAreARun(clients, limits, now, visits[..|visits| - 1], scope);
      match visits[|visits| - 1] {
        case Joining(socketId, auctionId, found) =>
          steps := JoinIsARun(clients, limits, now, before, socketId, auctionId, found, scope);
        case Leaving(socketId) =>
          OneMoreStep(clients, limits, now, before, Disconnect(socketId), scope, 1);
          steps := before + [Disconnect(socketId)];
        case Waiting(ms) =>
          OneMoreStep(clients, limits, now, before, Pass(ms), scope, 1);
          steps := before + [Pass(ms)];
      }
    }
  }

  lemma NothingPending(clients: Clients, limits: Limits, now: int, scope: Scope)
    ensures AtMostPending(clients, limits, now, [], scope, 1)
  {
  }

  /** One join at a time, with disconnects, failed joins and expiry, never takes a set past its maximum plus one. */
  lemma SequentialBound(clients: Clients, limits: Limits, now: int, visits: seq<Visit>, scope: Scope)
    requires 0 < limits.ttl
    ensures |Sockets(RunVisits(clients, limits, now, visits), scope)| <= MaxOf(limits, scope) + 1
  {
    var steps := VisitsAreARun(clients, limits, now, visits, scope);
    ConnectionBound(clients, limits, now, steps, scope, 1);
  }

  // ----- And that one place above the maximum is reached -----

  /** A join that finds its auction registers exactly if it was let through. */
  lemma WholeJoin(clients: Clients, limits: Limits, s: Traffic, socketId: string, auctionId: AuctionId, scope: Scope)
    requires 0 < limits.ttl && IsIn(clients(socketId), scope)
    ensures var t := AfterVisit(clients, limits, s, Joining(socketId, auctionId, true));
            && t.now == s.now
            && Sockets(t, scope) == Sockets(s, scope) + if Admits(clients, limits, s, socketId) then {socketId} else {}
  {
    hide Next, MembersAt, Checked, Admits;
    CheckedIffAdmitted(clients, limits, s, socketId, auctionId);
    RegisterOnSet(clients, limits, Checked(clients, limits, s, socketId, auctionId), |s.attempts|, scope);
  }

  function Joinings(sockets: seq<string>, auctionId: AuctionId): seq<Visit> {
    seq(|sockets|, i requires 0 <= i < |sockets| => Joining(sockets[i], auctionId, true))
  }

  lemma OneMoreJoining(clients: Clients, limits: Limits, now: int, sockets: seq<string>, auctionId: AuctionId)
    requires sockets != []
    ensures var init, last := sockets[..|sockets| - 1], sockets[|sockets| - 1];
            RunVisits(clients, limits, now, Joinings(sockets, auctionId))
            == AfterVisit(clients, limits, RunVisits(clients, limits, now, Joinings(init, auctionId)),
                          Joining(last, auctionId, true))
  {
    var visits := Joinings(sockets, auctionId);
    assert visits[..|visits| - 1] == Joinings(sockets[..|sockets| - 1], auctionId);
  }

  ghost predicate SameClient(clients: Clients, sockets: seq<string>, c: Client) {
    && (forall i | 0 <= i < |sockets| :: clients(sockets[i]) == c)
    && (forall i, j | 0 <= i < j < |sockets| :: sockets[i] != sockets[j])
  }

  function FirstOf(sockets: seq<string>, n: nat): set<string>
    requires n <= |sockets|
  {
    set i | 0 <= i < n :: sockets[i]
  }

  lemma FirstOneMore(clients: Clients, sockets: seq<string>, c: Client, n: nat)
    requires n < |sockets| && SameClient(clients, sockets, c)
    ensures FirstOf(sockets, n + 1) == FirstOf(sockets, n) + {sockets[n]}
    ensures sockets[n] !in FirstOf(sockets, n)
    ensures FirstOf(sockets[..|sockets| - 1], n) == FirstOf(sockets, n)
  {
  }

  function Max(limits: Limits): nat {
    if limits.maxPerUser < limits.maxPerIp then limits.maxPerUser else limits.maxPerIp
  }

  /** How many of `n` sockets of one client get in: the lower of the two maxima, plus one. */
  function Places(limits: Limits, n: nat): nat {
    if n <= Max(limits) + 1 then n else Max(limits) + 1
  }

  /** The client's two sets hold just these. */
  ghost predicate Seated(s: Traffic, c: Client, seats: set<string>) {
    Sockets(s, OfUser(c.username)) == seats && Sockets(s, OfIp(c.ip)) == seats
  }

  lemma NextSeat(
    clients: Clients, limits: Limits, s: Traffic, c: Client, socketId: string, auctionId: AuctionId, seats: set<string>
  )
    requires 0 < limits.ttl && clients(socketId) == c && Seated(s, c, seats)
    ensures var t := AfterVisit(clients, limits, s, Joining(socketId, auctionId, true));
            && t.now == s.now
            && Seated(t, c, if |seats| <= Max(limits) then seats + {socketId} else seats)
  {
    hide AfterVisit, Sockets;
    WholeJoin(clients, limits, s, socketId, auctionId, OfUser(c.username));
    WholeJoin(clients, limits, s, socketId, auctionId, OfIp(c.ip));
  }

  /** The seats of the first n sockets, and of one more. */
  lemma SeatsOneMore(clients: Clients, limits: Limits, sockets: seq<string>, c: Client)
    requires SameClient(clients, sockets, c) && sockets != []
    ensures var n, last := |sockets| - 1, sockets[|sockets| - 1];
            var seats := FirstOf(sockets[..n], Places(limits, n));
            && clients(last) == c && SameClient(clients, sockets[..n], c)
            && (|seats| == Places(limits, n) ==>
                  var after := if |seats| <= Max(limits) then seats + {last} else seats;
                  after == FirstOf(sockets, Places(limits, n + 1)) && |after| == Places(limits, n + 1))
  {
    var n := |sockets| - 1;
    FirstOneMore(clients, sockets, c, n);
    FirstOfPrefix(sockets, Places(limits, n));
    hide FirstOf;
  }

  /** The guard compares with `>` before it adds: of one client's sockets the first maximum plus one get in, no more. */
  lemma {:induction false} OneAboveMaximum(
    clients: Clients, limits: Limits, now: int, sockets: seq<string>, c: Client, auctionId: AuctionId
  )
    requires 0 < limits.ttl && SameClient(clients, sockets, c)
    ensures var s := RunVisits(clients, limits, now, Joinings(sockets, auctionId));
            && s.now == now
            && Sockets(s, OfUser(c.username)) == FirstOf(sockets, Places(limits, |sockets|))
            && Sockets(s, OfIp(c.ip)) == FirstOf(sockets, Places(limits, |sockets|))
            && |Sockets(s, OfUser(c.username))| == Places(limits, |sockets|)
    decreases |sockets|
  {
    if sockets == [] {
      assert Joinings(sockets, auctionId) == [];
    } else {
      hide AfterVisit, RunVisits, Joinings, Sockets, FirstOf, SameClient;
      var n := |sockets| - 1;
      var s := RunVisits(clients, limits, now, Joinings(sockets[..n], auctionId));
      SeatsOneMore(clients, limits, sockets, c);
      OneAboveMaximum(clients, limits, now, sockets[..n], c, auctionId);
      NextSeat(clients, limits, s, c, sockets[n], auctionId, FirstOf(sockets[..n], Places(limits, n)));
      OneMoreJoining(clients, limits, now, sockets, auctionId);
    }
  }

  lemma FirstOfPrefix(sockets: seq<string>, n: nat)
    requires n < |sockets|
    ensures FirstOf(sockets[..|sockets| - 1], n) == FirstOf(sockets, n)
  {
  }

  // ----- The limiter's runs are runs of the registry, and a disconnect makes room -----

  /** What a step does to the registry: a join that registers, a disconnect, the passing of time, or nothing. */
  function OpsBy(s: Traffic, step: Step): seq<Operation> {
    match step
    case Register(i) =>
      if i < |s.attempts| && s.attempts[i].progress.Cleared? then
        [Join(s.attempts[i].socketId, s.attempts[i].auctionId)]
      else []
    case Disconnect(socketId) => [Leave(socketId)]
    case Pass(ms) => [Wait(ms)]
    case _ => []
  }

  function RegistryOps(clients: Clients, limits: Limits, now: int, steps: seq<Step>): seq<Operation>
    decreases |steps|
  {
    if steps == [] then []
    else
      var init := steps[..|steps| - 1];
      RegistryOps(clients, limits, now, init) + OpsBy(Run(clients, limits, now, init), steps[|steps| - 1])
  }

  lemma StepOnRegistry(clients: Clients, limits: Limits, s: Traffic, step: Step, published: seq<Presence>)
    ensures var t, ops := Next(clients, limits, s, step), OpsBy(s, step);
            if ops == [] then t.ks == s.ks && t.now == s.now
            else
              var r := Registry.Apply(clients, limits.ttl, State(s.ks, s.now, published), ops[0]);
              |ops| == 1 && t.ks == r.ks && t.now == r.now
  {
    hide Registered, Unregistered, MembersAt;
  }

  lemma RegistryOneMore(clients: Clients, ttl: int, now: int, ops: seq<Operation>, op: Operation)
    ensures Registry.Run(clients, ttl, now, ops + [op])
            == Registry.Apply(clients, ttl, Registry.Run(clients, ttl, now, ops), op)
  {
    assert (ops + [op])[..|ops|] == ops;
  }

  lemma {:induction false} RunIsRegistryRun(clients: Clients, limits: Limits, now: int, steps: seq<Step>)
    ensures var s := Run(clients, limits, now, steps);
            var r := Registry.Run(clients, limits.ttl, now, RegistryOps(clients, limits, now, steps));
            s.ks == r.ks && s.now == r.now
    decreases |steps|
  {
    if steps == [] {
    } else {
      hide Run, Next, OpsBy, Registry.Run, Registry.Apply;
      var init, last := steps[..|steps| - 1], steps[|steps| - 1];
      var s, before := Run(clients, limits, now, init), RegistryOps(clients, limits, now, init);
      RunIsRegistryRun(clients, limits, now, init);
      OneMoreRun(clients, limits, now, init, last);
      assert init + [last] == steps;
      var r := Registry.Run(clients, limits.ttl, now, before);
      StepOnRegistry(clients, limits, s, last, r.published);
      if OpsBy(s, last) == [] {
        assert before + [] == before;
      } else {
        RegistryOneMore(clients, limits.ttl, now, before, OpsBy(s, last)[0]);
        assert OpsBy(s, last) == [OpsBy(s, last)[0]];
      }
    }
  }

  lemma OneMoreRun(clients: Clients, limits: Limits, now: int, steps: seq<Step>, step: Step)
    ensures Run(clients, limits, now, steps + [step]) == Next(clients, limits, Run(clients, limits, now, steps), step)
  {
    assert (steps + [step])[..|steps|] == steps;
  }

  /** In every run of visits, a socket whose username key lives leaves its sets when it disconnects. */
  lemma LeavingFrees(clients: Clients, limits: Limits, now: int, visits: seq<Visit>, gone: string, scope: Scope)
    requires 0 < limits.ttl && clients(gone).username != ""
    ensures var s := RunVisits(clients, limits, now, visits);
            Live(s.ks, s.now, SocketUsername(gone)) ==>
              && Sockets(AfterVisit(clients, limits, s, Leaving(gone)), scope)
                 == Sockets(s, scope) - (if IsIn(clients(gone), scope) then {gone} else {})
              && (IsIn(clients(gone), scope) ==> gone in Sockets(s, scope))
  {
    hide Run, RunVisits, Registry.Run, MembersAt, Unregistered, AllBacked, Backed;
    var s := RunVisits(clients, limits, now, visits);
    var steps := VisitsAreARun(clients, limits, now, visits, scope);
    var ops := RegistryOps(clients, limits, now, steps);
    RunIsRegistryRun(clients, limits, now, steps);
    RunKeepsBacked(clients, limits.ttl, now, ops);
    if Live(s.ks, s.now, SocketUsername(gone)) {
      RegisteredIsLive(clients, s.ks, s.now, gone);
      LeaveOnScope(clients, s.ks, s.now, gone, scope, gone);
      LiveSocketIsListed(clients, limits.ttl, now, ops, gone);
    }
  }

  /**
   After any run of visits, however full: once a registered socket disconnects, a new socket of the same client that
   joins is registered in its place.
   */
  lemma DisconnectMakesRoom(
    clients: Clients, limits: Limits, now: int, visits: seq<Visit>, gone: string, newcomer: string,
    auctionId: AuctionId, scope: Scope
  )
    requires 0 < limits.ttl && clients(gone).username != "" && clients(newcomer) == clients(gone)
    requires IsIn(clients(gone), scope)
    ensures var s := RunVisits(clients, limits, now, visits);
            var t := AfterVisit(clients, limits, s, Leaving(gone));
            Live(s.ks, s.now, SocketUsername(gone)) ==>
            Sockets(AfterVisit(clients, limits, t, Joining(newcomer, auctionId, true)), scope)
            == Sockets(s, scope) - {gone} + {newcomer}
  {
    hide RunVisits, AfterVisit, Sockets, Live;
    var s, c := RunVisits(clients, limits, now, visits), clients(gone);
    var t := AfterVisit(clients, limits, s, Leaving(gone));
    LeavingFrees(clients, limits, now, visits, gone, scope);
    LeavingFrees(clients, limits, now, visits, gone, OfUser(c.username));
    LeavingFrees(clients, limits, now, visits, gone, OfIp(c.ip));
    SequentialBound(clients, limits, now, visits, OfUser(c.username));
    SequentialBound(clients, limits, now, visits, OfIp(c.ip));
    WholeJoin(clients, limits, t, newcomer, auctionId, scope);
  }
}
