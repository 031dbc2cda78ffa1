/**
 The Redis keyspace: typed keys for the key templates, values, and expiry.
 An entry past its deadline is as good as absent; the commands below treat it so.
 */
module Keyspace {
  import opened AuctionRows
  import opened Protocol
  import opened Wrappers

  datatype Key =
    | AuctionState(auctionId: AuctionId)                       // auction:{auctionId}:state
    | SocketUsername(socketId: string)                         // socket:{socketId}:username
    | SocketIp(socketId: string)                               // socket:{socketId}:ip
    | SocketAuctionId(socketId: string)                        // socket:{socketId}:auctionId
    | UserSockets(username: string)                            // user:{username}:sockets
    | IpSockets(ip: string)                                    // ip:{ip}:sockets
    | UserInAuction(username: string, auctionId: AuctionId)    // user:{username}:{auctionId}
    | OnlineUsers(auctionId: AuctionId)                        // auction:{auctionId}:username
    | BidTimestamps(username: string)                          // user:{username}:bid_timestamps

  // A sorted-set member is the decimal text of its score, so a set of scores says it all.
  datatype Value =
    | Text(text: string)
    | Number(number: AuctionId)
    | Members(members: set<string>)
    | Stamps(stamps: set<int>)
    | Room(room: AuctionRoom)

  datatype Entry = Entry(value: Value, deadline: Option<int>)

  type Keyspace = map<Key, Entry>

  predicate Live(ks: Keyspace, now: int, k: Key) {
    k in ks && (ks[k].deadline.Some? ==> now < ks[k].deadline.value)
  }

  // ----- Reads -----

  function TextAt(ks: Keyspace, now: int, k: Key): Option<string> {
    if Live(ks, now, k) && ks[k].value.Text? then Some(ks[k].value.text) else None
  }

  function NumberAt(ks: Keyspace, now: int, k: Key): Option<AuctionId> {
    if Live(ks, now, k) && ks[k].value.Number? then Some(ks[k].value.number) else None
  }

  function RoomAt(ks: Keyspace, now: int, k: Key): Option<AuctionRoom> {
    if Live(ks, now, k) && ks[k].value.Room? then Some(ks[k].value.room) else None
  }

  function MembersAt(ks: Keyspace, now: int, k: Key): set<string> {
    if Live(ks, now, k) && ks[k].value.Members? then ks[k].value.members else {}
  }

  function StampsAt(ks: Keyspace, now: int, k: Key): set<int> {
    if Live(ks, now, k) && ks[k].value.Stamps? then ks[k].value.stamps else {}
  }

  // ----- Commands -----

  function KeptDeadline(ks: Keyspace, now: int, k: Key): Option<int> {
    if Live(ks, now, k) then ks[k].deadline else None
  }

  function SetEx(ks: Keyspace, now: int, k: Key, value: Value, ttl: int): Keyspace {
    ks[k := Entry(value, Some(now + ttl))]
  }

  function ExpireIn(ks: Keyspace, now: int, k: Key, ttl: int): Keyspace {
    if Live(ks, now, k) then ks[k := ks[k].(deadline := Some(now + ttl))] else ks
  }

  function SAdd(ks: Keyspace, now: int, k: Key, member: string): Keyspace {
    ks[k := Entry(Members(MembersAt(ks, now, k) + {member}), KeptDeadline(ks, now, k))]
  }

  /** Removing the last member removes the key. */
  function SRem(ks: Keyspace, now: int, k: Key, member: string): Keyspace {
    if !Live(ks, now, k) || !ks[k].value.Members? then ks
    else if ks[k].value.members - {member} == {} then ks - {k}
    else ks[k := ks[k].(value := Members(ks[k].value.members - {member}))]
  }

  function ZRemRangeByScore(ks: Keyspace, now: int, k: Key, min: int, max: int): Keyspace {
    if !Live(ks, now, k) || !ks[k].value.Stamps? then ks
    else
      var kept := set t | t in ks[k].value.stamps && !(min <= t <= max);
      if kept == {} then ks - {k} else ks[k := ks[k].(value := Stamps(kept))]
  }

  function ZAdd(ks: Keyspace, now: int, k: Key, score: int): Keyspace {
    ks[k := Entry(Stamps(StampsAt(ks, now, k) + {score}), KeptDeadline(ks, now, k))]
  }

  // ----- What the commands promise -----

  /** Every read sees the value stored under a key up to its deadline, and nothing from then on. */
  lemma ReadsSeeLiveEntries(ks: Keyspace, now: int, k: Key, value: Value)
    requires k in ks && ks[k].value == value
    ensures var expired := ks[k].deadline.Some? && ks[k].deadline.value <= now;
            && TextAt(ks, now, k) == (if value.Text? && !expired then Some(value.text) else None)
            && NumberAt(ks, now, k) == (if value.Number? && !expired then Some(value.number) else None)
            && RoomAt(ks, now, k) == (if value.Room? && !expired then Some(value.room) else None)
            && MembersAt(ks, now, k) == (if value.Members? && !expired then value.members else {})
            && StampsAt(ks, now, k) == (if value.Stamps? && !expired then value.stamps else {})
  {
  }

  /** No key holds an empty set. */
  ghost predicate NoEmptySets(ks: Keyspace) {
    forall k | k in ks :: ks[k].value != Members({}) && ks[k].value != Stamps({})
  }

  /** No command leaves one. */
  lemma CommandsKeepNoEmptySets(
    ks: Keyspace, now: int, k: Key, member: string, stamp: int, min: int, max: int, ttl: int
  )
    requires NoEmptySets(ks)
    ensures NoEmptySets(SAdd(ks, now, k, member)) && NoEmptySets(SRem(ks, now, k, member))
    ensures NoEmptySets(ZAdd(ks, now, k, stamp)) && NoEmptySets(ZRemRangeByScore(ks, now, k, min, max))
    ensures NoEmptySets(ExpireIn(ks, now, k, ttl))
  {
    assert member in MembersAt(ks, now, k) + {member} && stamp in StampsAt(ks, now, k) + {stamp};
  }
}
