# Live car auction: verified models

Dafny models of the parts of the auction server that hold its state: the bidding protocol (Kafka partition, database
rows, Redis cache), the bid throttle, the socket and presence registry, and the connection limiter.
`dafny verify dfyconfig.toml` takes in the whole project.

## What is modelled

**Bidding.** `AuctionRows` has the two tables and the bid transaction as a function on one auction's rows. `Protocol`
is the state machine: one `placeBid` in flight (read, commit, publish, cache write, or rejection), any number of
`endAuction` calls (check, update, publish, cache write) and `getAuctionState` calls (cache get, database read, cache
write), crashes that rewind the consumer, and expiry of the cached state, in any order. On top of it:

- `ClosingTime`: what can still change after the close, and when an announced winner stands;
- `CacheTruth`: what the cache may say while writers race;
- `Serial`: every interleaving gives the rows of a serial, exactly-once pass over the partition;
- `Outcomes`: each bid is answered once, and announcements follow the Bid rows;
- `Recovery`: what a consumer that comes back after a crash does again, and that it is harmless;
- `Redelivery`: the same rows under arbitrary redelivery of log entries;
- `Partitions`: many auctions, each in its own partition;
- `Sequential`: the operations run to completion, tied to the protocol's steps, and the cache as a refinement of
  uncached reads; and `CacheClock`: the same under a running clock, with entries that have deadlines;
- `Services`: the consumer and the auction service as classes that update the database and Redis.

**Redis.** `Keyspace` has typed keys, values with deadlines, and the commands. `Registry` has the join and disconnect
transactions, `RegistryExpiry` the registry under a running clock, `RegistryLingering` the sockets that a set still
lists after their own keys have expired, `RegistryIndexes` the agreement of forward keys and inverse sets and the replay
of presence events, and `RedisClient` the Redis service as a class, one command at a time.

**Limits.** `Throttle` compares the pruned sorted set with a window over the whole history, `ThrottleExpiry` says
exactly when key expiry is harmless and `ThrottleRate` exactly when the rate is bounded, `ThrottleRace` lets calls
overlap, bounds the stored set and reaches the bound, `ConnectionLimit` is the guard's check followed later by the
registration or by finding no auction, and `IpKeys` is the address normalization. `Gateway` has the producer, the guard,
the interceptor and the gateway's handlers as classes. `Counting` and `Wrappers` are helpers.

## Modelling assumptions

- Amounts are whole cents; the database rounds to two decimals (`src/prisma/schema.prisma:30`). Any integer may be bid.
- Auctions start with no bids, highest bid 0, version 1 and no winner. They are not created or deleted during a run, and
  usernames do not change. A null and an absent winner field are one `None`.
- User ids are positive, as the autoincrement keys are, so an id is never mistaken for a missing one.
- Limits, window and time to live are parameters with any positive value (the connection maxima may also be zero).
- A socket's username and address do not change while it lives; registered usernames are not empty where that matters.
- Time is an integer number of milliseconds. Each Redis command, and each MULTI, is atomic.
- A key is gone at its deadline. Redis itself drops a key only once the deadline has passed, one millisecond later, so in
  the conditions on the time to live below (`ThrottleExpiry.ExpiryHarmlessIff`, `ThrottleRate.RateBoundIff`) `ttl` is
  one millisecond more than the time given to EXPIRE.

## Where the documentation and the code differ

The models follow the code.

- `src/prisma/schema.prisma:33-34` speaks of optimistic locking, but `version` is incremented and never compared.
  `AuctionRows.UnserializedCommits` shows that two transactions that read the same row both commit; what keeps the rows
  right is that one consumer works through the partition.
- The guard refuses when the count is above the maximum (`src/auth/guards/ws-connection-rate-limit.guard.ts:50`), before
  adding, so a maximum plus one connections get in: `ConnectionLimit.OneAboveMaximum`.
- The comment at `src/auth/guards/ws-connection-rate-limit.guard.ts:100` says that `::1` becomes `127.0.0.1`; the code
  makes it `localhost`, a key of its own: `IpKeys.LoopbackStandsAlone`.
- `src/constants.ts:41-42` reads the bid maximum and its window from the variable of the socket maximum; the models take
  all three as separate parameters.
- The comment at `src/redis/redis.service.ts:180-189` mentions an `online_users` set and the one at lines 234-244 a TTL
  refresh; neither is in the code.

## Properties that hold only under a condition

Each has its exact condition proved, in both directions. For those that depend on the run, a lemma gives a run in which
the property fails: `ClosingTime.LateBidHappens`, `ClosingTime.TwoClosesHappen`, `CacheTruth.StaleOpenHappens`,
`RegistryIndexes.TwoRoomsHappen` and `RegistryLingering.LingeringHappens`.

- An announced winner is the database's winner in every later state if and only if no bid is past its read when the close
  is made (`ClosingTime.AnnouncedWinnerStandsIff`); a closed auction's rows are final if and only if the same holds
  (`ClosingTime.NoLateBidIff`).
- A second `endAuction` can succeed if and only if it passed its check before the first one's update
  (`ClosingTime.SecondCloseSucceedsIff`).
- The cache of a closed auction can come to say open if and only if an open flag is in the cache or on its way there
  (`CacheTruth.StaleOpenIff`).
- Key expiry changes no throttle decision if and only if keys live a window, or the bound is above `window - ttl + 1`, in
  milliseconds (`ThrottleExpiry.ExpiryHarmlessIff`).
- Every interval of every run is within the rate if and only if `window - ttl` is below the bound
  (`ThrottleRate.RateBoundIff`).
- A set lists a socket whose username key has expired, which then counts against the limits, if and only if the socket
  joined a time to live ago or longer, did not leave before its key expired, and joins of the same user (or address)
  were never a time to live apart since (`RegistryLingering.LingersIff`).
- A join keeps the per-auction sets in agreement with the forward keys if and only if its socket is not registered in
  another auction (`RegistryIndexes.JoinKeepsRoomsIff`).
- A bid leaves the cache saying what the database says if and only if it is refused or carries its bidder's own username
  (`Sequential.PlaceBidKeepsCoherentIff`).

## Model

| member | source | states |
|---|---|---|
| AuctionRows.ConsistentSummary | src/prisma/schema.prisma:24-40 | in a consistent row the highest bid is the maximum of the Bid amounts (0 for none) and the winner is the bidder of the unique top bid |
| AuctionRows.UnserializedCommits | src/kafka/consumer/bid-events.consumer.service.ts:128-135 | nothing compares versions: two transactions that accepted on the same row leave it consistent if and only if the second bids more |
| AuctionRows.ProcessKeepsConsistent | src/kafka/consumer/bid-events.consumer.service.ts:83-143 | the bid transaction keeps bids rising, the summary columns right and the version equal to one plus the number of bids |
| AuctionRows.ConsumeReachesPeak | src/kafka/consumer/bid-events.consumer.service.ts:109-135 | over any log on an open auction the final highest bid is the maximum of the start and all amounts |
| AuctionRows.AcceptedAreRecords | src/kafka/consumer/bid-events.consumer.service.ts:99-117 | a bid of a log is accepted if and only if it is a strict left-to-right maximum above the starting highest bid |
| AuctionRows.EarliestPeakWins | src/kafka/consumer/bid-events.consumer.service.ts:109-135 | the winner is the earliest bidder to reach the maximum; with no bid above the start nothing changes |
| Redelivery.ProcessedIsRejected | src/kafka/consumer/bid-events.consumer.service.ts:99-117 | a message once processed is refused by every later row, through any deliveries and the close |
| Redelivery.AtLeastOnceIsExactlyOnce | src/kafka/consumer/bid-events.consumer.service.ts:41-56 | deleting every delivery of an already processed message leaves the same final auction and bid rows |
| Redelivery.RunIsOpenDeliveries | src/kafka/consumer/bid-events.consumer.service.ts:83-143 | the rows of any history are those of the deliveries completed before the close, one after another: a delivery lost to a crash counts for nothing |
| Redelivery.ClosedIsFinal | src/kafka/consumer/bid-events.consumer.service.ts:99-107 | after the close no delivery changes a row |
| Redelivery.FirstDeliveriesOnce | src/kafka/consumer/bid-events.consumer.service.ts:41-56 | in the history so reduced, no delivery of a message follows its processing |
| Protocol.NextKeepsSafe | src/kafka/consumer/bid-events.consumer.service.ts:83-143 | every step of every operation keeps the row consistent, keeps a bid past its read above the row, loses no bid, never lowers the highest bid and never reopens |
| Protocol.RunKeepsSafe | src/kafka/consumer/bid-events.consumer.service.ts:83-143 | the same over every run |
| Protocol.FineGrainedSafety | src/kafka/consumer/bid-events.consumer.service.ts:83-143 | in every reachable state amounts rise in commit order, the highest bid is their maximum, the winner is the unique top bidder, the version counts the bids, earlier bids are kept, and a closed auction stays closed |
| Protocol.WinningBidIsWinner | src/auction/auction.service.ts:112-150 | the top bid that endAuction queries agrees with the row's highest bid and winner |
| ClosingTime.AtMostOneLateBid | src/kafka/consumer/bid-events.consumer.service.ts:85-135 | after a close all that can ever change the rows is the one bid already past its read |
| ClosingTime.NoLateBidIff | src/kafka/consumer/bid-events.consumer.service.ts:85-135 | a closed auction's rows never change again if and only if no bid is past its read |
| ClosingTime.OpenMeansNoneClosedYet | src/auction/auction.service.ts:92-125 | while the auction is open no call has updated, announced or succeeded |
| ClosingTime.AnnouncedWinnerStandsIff | src/auction/auction.service.ts:92-160 | at the first close: every auctionEnd of every continuation names the database winner if and only if no bid is past its read |
| ClosingTime.SecondCloseSucceedsIff | src/auction/auction.service.ts:80-125 | on a closed auction a pending call can still succeed if and only if it had passed its check |
| ClosingTime.LateBidHappens | src/kafka/consumer/bid-events.consumer.service.ts:85-135 | a run from the start in which a bid is read, the auction is announced as ended without one, and the bid is then written and wins |
| ClosingTime.TwoClosesHappen | src/auction/auction.service.ts:80-125 | a run from the start in which two calls both succeed and both announce the end |
| CacheTruth.CacheNeverAhead | src/auction/auction.service.ts:31-72 | with racing writers, stale fills and expiry, every cached or answered (highest bid, winner) pair was the row's at some moment, and its amount is never above the row's |
| CacheTruth.NeverClosedEarly | src/auction/auction.service.ts:162-170 | neither the cache nor any answer says closed while the row is open |
| CacheTruth.StaleOpenIff | src/kafka/consumer/bid-events.consumer.service.ts:163-171 | the cache of a closed auction can come to say open if and only if an open flag is cached or on its way |
| CacheTruth.StaleOpenHappens | src/auction/auction.service.ts:31-72 | a run from the start in which a read fills the cache with an open room after the close has written it |
| Serial.Serializable | src/kafka/consumer/bid-events.consumer.service.ts:41-56 | every reachable row, crashes and redelivery included, is a serial pass over a prefix of the partition with the close at one point of it |
| Serial.EveryRowIsEarliestPeak | src/kafka/consumer/bid-events.consumer.service.ts:83-143 | every reachable row is won by the earliest peak of a prefix of the partition, the whole of it once the consumer of an open auction has caught up |
| Recovery.RewindIsHarmless | src/kafka/consumer/bid-events.consumer.service.ts:41-56 | from any reachable state, a consumer rewound to any earlier offset comes back to where it was with the same rows and cache, having only refused those messages again, each once |
| Outcomes.EveryBidAnsweredOnce | src/kafka/consumer/bid-events.consumer.service.ts:145-188 | without crashes an idle consumer has answered each consumed message once, in order, as one serial pass with the close at one point of it would: newBid if and only if it is a record of the messages before the close, too low for the others before it, closed for those after; the newBid stream is the Bid rows in commit order, rising |
| Outcomes.AnnouncementsAreSubsequence | src/kafka/consumer/bid-events.consumer.service.ts:145-161 | in every state, crashes and redelivery included, the newBid stream is a subsequence of the Bid rows; once the consumer is idle it is short by exactly the crashes between a commit and its publication |
| Outcomes.EveryNameIsRight | src/kafka/consumer/bid-events.consumer.service.ts:149-170 | in every reachable state every name in a newBid, an auctionEnd, the cache or an answer is that of the user named beside it, if messages carry their bidder's own name |
| Sequential.PlaceBidSteps | src/kafka/consumer/bid-events.consumer.service.ts:73-189 | placeBid run alone is a run of the protocol's steps with the same effect on rows, cache and events |
| Sequential.EndAuctionSteps | src/auction/auction.service.ts:80-176 | the same for endAuction, refusals included |
| Sequential.GetAuctionStateSteps | src/auction/auction.service.ts:31-72 | the same for getAuctionState, on a hit and on a miss |
| Sequential.SequentialRunIsInterleaving | src/kafka/consumer/bid-events.consumer.service.ts:41-56 | every run of whole operations is one of the protocol's interleavings |
| Sequential.PlaceBidsAnnouncesRecords | src/kafka/consumer/bid-events.consumer.service.ts:145-188 | consuming a log on an open auction publishes one answer a message, in order: newBid for each record, too low for the rest |
| Sequential.PlaceBidKeepsCoherentIff | src/kafka/consumer/bid-events.consumer.service.ts:163-171 | a bid leaves the cache as a fresh database read would be if and only if it is refused or carries its bidder's own username |
| Sequential.EndAuctionKeepsCoherent | src/auction/auction.service.ts:127-170 | the close leaves the cache as a fresh database read would be and reports the row's highest bid and winner |
| Sequential.ReadThroughRefines | src/auction/auction.service.ts:31-72 | over every run of bids, closes, reads and expiries the answers are those of uncached reads with winner lookup |
| CacheClock.ClockExpiresCache | src/auction/auction.service.ts:34-42 | a passing clock leaves the cached room as it is before its deadline and is the protocol's expiry step from then on |
| CacheClock.RoomLivesOneTtl | src/redis/redis.service.ts:167-174 | a room stored is read until one time to live has passed, and not after |
| CacheClock.ReadThroughRefinesUnderClock | src/auction/auction.service.ts:31-72 | with deadlines and a running clock, over every run of bids, closes, reads and pauses, the answers are those of uncached reads |
| Registry.JoinEffect | src/redis/redis.service.ts:191-221 | a join adds exactly its socket and username to the four sets, sets the three forward keys and renews the seven deadlines; other sets keep their members and other sockets their keys |
| Registry.LeaveEffect | src/redis/redis.service.ts:246-302 | a disconnect takes its socket out of exactly its sets and its user out of the online set if and only if that was its last socket there; its forward keys are gone; other sets keep their members, other sockets their keys, and no deadline moves |
| Registry.RegistryLeavesOutside | src/redis/redis.service.ts:191-313 | neither a join nor a disconnect touches a cached room or a user's bid timestamps |
| Registry.UnknownSocketIsLeftAlone | src/redis/redis.service.ts:247-253 | without a username, or with an empty one, nothing changes and nothing is published |
| RegistryExpiry.LiveSocketIsListed | src/redis/redis.service.ts:197-221 | over any run with a clock, a live username key implies live membership of the socket in its user, address and user-in-auction sets, and of the user in the auction's online set |
| RegistryLingering.ListedIff | src/redis/redis.service.ts:197-266 | over any run with a clock, a user's (an address's) set lists a socket if and only if it has a last join, has not left within a time to live of it, and joins of the same user (address) have not been a time to live apart since |
| RegistryLingering.LingersIff | src/redis/redis.service.ts:246-266 | it lists one without a live username key if and only if, besides, that join lies a time to live back |
| RegistryLingering.LingeringHappens | src/redis/redis.service.ts:197-253 | a run in which a second socket's join keeps an expired one listed, through its disconnect |
| RegistryIndexes.IndexesAgree | src/redis/redis.service.ts:191-295 | a socket is in a user's (an address's) set if and only if its forward key says so, even in several auctions; a user is online in an auction if and only if its set there is not empty |
| RegistryIndexes.PresenceReplays | src/redis/redis.service.ts:213-302 | folding the published user_online and user_offline events gives exactly the stored online set of every auction |
| RegistryIndexes.JoinKeepsRoomsIff | src/redis/redis.service.ts:206-217 | a join keeps the per-auction sets in agreement with the forward keys if and only if the socket is not registered in another auction |
| RegistryIndexes.RoomIndexAgrees | src/redis/redis.service.ts:206-276 | with one auction at a time per socket, a socket is in a user's set in an auction if and only if its keys name that user and that auction |
| RegistryIndexes.TwoRoomsHappen | src/redis/redis.service.ts:206-295 | a socket that joins two auctions and disconnects is registered nowhere, and its user stays online in the first |
| Keyspace.ReadsSeeLiveEntries | src/redis/redis.service.ts:156-174 | every read sees what is stored under a key up to its deadline, and nothing from then on |
| Keyspace.CommandsKeepNoEmptySets | src/redis/redis.service.ts:263-276 | no command leaves an empty set: removing the last member removes the key |
| RedisClient.RedisService.GetCache | src/redis/redis.service.ts:156-159 | the room stored under the key, if and only if its deadline has not come |
| RedisClient.RedisService.SetCache | src/redis/redis.service.ts:167-174 | that key, value and deadline, and no other key, are written |
| RedisClient.RedisService.RegisterSocket | src/redis/redis.service.ts:191-232 | the commands one after another make the join transaction, and user_online is published |
| RedisClient.RedisService.UnregisterSocket | src/redis/redis.service.ts:246-313 | the commands one after another make the disconnect transaction, and user_offline is published for the last socket |
| RedisClient.RedisService.RemoveStamps | src/redis/redis.service.ts:354-360 | exactly the timestamps of the range are removed, the deadline and every other key kept; an emptied set is no key |
| RedisClient.RedisService.AddStamp | src/redis/redis.service.ts:366-373 | the timestamp joins the live ones and the key's deadline is renewed |
| Services.Database.CloseAuction | src/auction/auction.service.ts:112-125 | the row is closed, and the bid returned, if there are any, is one of its bids that no other exceeds |
| Services.BidEventsConsumerService.RunTransaction | src/kafka/consumer/bid-events.consumer.service.ts:83-143 | the error, and the rows of the modelled bid transaction; a missing auction changes nothing |
| Services.BidEventsConsumerService.PlaceBid | src/kafka/consumer/bid-events.consumer.service.ts:73-189 | an accepted bid writes both tables, publishes newBid with the amount, bidder and name of the message, and stores the room for one time to live; a refused one only tells its socket, if there is one, which of the three reasons it was; no other auction is touched, and all of it is the sequential placeBid |
| Services.BidEventsConsumerService.ConsumePartition | src/kafka/consumer/bid-events.consumer.service.ts:41-56 | the loop does to its auction what the messages do in order, answers each not found if there is no such auction, and does nothing to any other |
| Services.AuctionService.GetAuctionState | src/auction/auction.service.ts:31-72 | a live entry is answered as it is; otherwise the row with its winner's name is answered and stored for one time to live; a missing auction is not cached; all of it is the sequential getAuctionState |
| Services.AuctionService.EndAuction | src/auction/auction.service.ts:80-176 | not found if and only if there is no such auction, already closed if and only if it is closed, and then nothing changes; otherwise the row is closed, and a bid that no other exceeds, with its user and name, is announced, returned and stored for one time to live |
| Partitions.ViewIsItsOwnHistory | src/kafka/consumer/bid-events.consumer.service.ts:41-56 | an auction's row, answers and offset depend only on the turns that concern it |
| Partitions.PartitionConfluence | src/kafka/kafka.producer.service.ts:41-58 | two schedules that agree on each partition's own order give the same rows and the same accept and reject outcomes for every auction |
| Partitions.ConsumesInOrder | src/kafka/kafka.producer.service.ts:41-58 | under any schedule without a close an auction's row is its partition's consumed messages in order |
| Partitions.EachBidIsAnswered | src/kafka/consumer/bid-events.consumer.service.ts:89-117 | under any schedule, a message of a partition is accepted if and only if it comes before the end and is a record of its partition above the starting bid, otherwise too low; closed after the end; not found without an auction; and as many bids are added as messages are accepted |
| Partitions.UnroutedDependsOnSchedule | src/kafka/kafka.producer.service.ts:45-54 | were one auction's bids in two partitions, the schedule would decide which are accepted |
| Throttle.SlidingWindowRefines | src/auction/interceptors/bid-throttle.interceptor.ts:51-83 | with a rising clock and keys that live a window, each call is admitted if and only if a reference that forgets nothing counts fewer than the maximum of distinct admitted timestamps in the window |
| ThrottleRate.RateBoundIff | src/auction/interceptors/bid-throttle.interceptor.ts:54-83 | in every run any half-open interval holds at most the maximum, times the windows begun in it, of distinct admitted timestamps, if and only if the window less the time to live is below the maximum |
| ThrottleRate.BurstOverruns | src/redis/redis.service.ts:366-373 | otherwise a burst, a pause of one time to live and one more call exceed the bound within one window |
| ThrottleExpiry.ExpiryHarmlessIff | src/redis/redis.service.ts:366-373 | key expiry changes no decision of any run if and only if keys live a window or the bound exceeds window less time to live plus one |
| ThrottleRace.OverlapBound | src/auction/interceptors/bid-throttle.interceptor.ts:54-83 | with at most k calls of a user in flight, interleaved anyhow, the set never exceeds the maximum less one plus k |
| ThrottleRace.OverlapReachesBound | src/auction/interceptors/bid-throttle.interceptor.ts:54-83 | and for every k some run with at most k calls in flight stores exactly that many |
| ThrottleRace.CallsAreARace | src/auction/interceptors/bid-throttle.interceptor.ts:51-83 | calls that do not overlap store the timestamps and get the decisions of the throttle, key expiry included |
| ThrottleRace.CountDecides | src/auction/interceptors/bid-throttle.interceptor.ts:61-79 | in any interleaving a call is refused at its count if and only if the set then holds the maximum or more |
| ConnectionLimit.ConnectionBound | src/auth/guards/ws-connection-rate-limit.guard.ts:46-91 | with at most k joins between their check and their end, in a registration or in finding no auction, a user's or an address's set never exceeds its maximum plus k, over joins, disconnects and expiry |
| ConnectionLimit.VisitsAreARun | src/auction/auction.gateway.ts:97-130 | joins one at a time, failed ones included, with disconnects and expiry, are runs in which at most one is pending |
| ConnectionLimit.SequentialBound | src/auction/auction.gateway.ts:97-130 | so they never take a set past its maximum plus one |
| ConnectionLimit.OneAboveMaximum | src/auth/guards/ws-connection-rate-limit.guard.ts:46-91 | of a client's sockets joining one after another exactly the first so many are registered: the lower of the two maxima, plus one |
| ConnectionLimit.RunIsRegistryRun | src/auction/auction.gateway.ts:125-130 | every run of the limiter, whatever its interleaving, is a run of the registry: the joins that register, the disconnects and the clock |
| ConnectionLimit.LeavingFrees | src/redis/redis.service.ts:246-266 | in every run a socket whose username key lives is listed, and exactly it leaves its user's and its address's set when it disconnects |
| ConnectionLimit.DisconnectMakesRoom | src/auth/guards/ws-connection-rate-limit.guard.ts:46-91 | however full the sets are, after a registered socket's disconnect a new socket of the same client is registered in its place |
| IpKeys.NormalizeIsIdempotent | src/auth/guards/ws-connection-rate-limit.guard.ts:97-113 | a key contains neither dots nor colons, and normalizing it again changes nothing |
| IpKeys.KeyCharacters | src/auth/guards/ws-connection-rate-limit.guard.ts:105-112 | an address loses its IPv4-mapped prefix, if it has one, and each dot and colon becomes an underscore; every other character stays |
| IpKeys.SpecialKeys | src/auth/guards/ws-connection-rate-limit.guard.ts:98-103 | the keys of a missing address and of the IPv6 loopback |
| IpKeys.DottedQuadIff | src/auth/guards/ws-connection-rate-limit.guard.ts:106-106 | exactly four runs of digits joined by dots count as an IPv4 address |
| IpKeys.DigitsIff | src/auth/guards/ws-connection-rate-limit.guard.ts:106-106 | a run of digits is one or more of the ten ASCII digits |
| IpKeys.MappedSharesKey | src/auth/guards/ws-connection-rate-limit.guard.ts:105-109 | an IPv4 address and its IPv4-mapped form (section 2.5.5.2 of RFC 4291) have the same key |
| IpKeys.DottedQuadsKeepApart | src/auth/guards/ws-connection-rate-limit.guard.ts:111-112 | two dotted-decimal addresses have the same key if and only if they are equal |
| IpKeys.LoopbackStandsAlone | src/auth/guards/ws-connection-rate-limit.guard.ts:100-103 | the IPv6 loopback shares its key with no IPv4 address |
| Gateway.KafkaProducerService.Produce | src/kafka/kafka.producer.service.ts:41-58 | one message is appended to the auction's own partition of the topic and nothing elsewhere; a bid is what that partition's consumer reads next, and bids stay routed |
| Gateway.ProducedLogIsConfluent | src/kafka/kafka.producer.service.ts:41-58 | on a log that the producer has kept routed, schedules that agree on each partition give every auction the same rows and answers |
| Gateway.KafkaProducerService.Audit | src/kafka/kafka.producer.service.ts:103-117 | one record is appended to partition 0 of the audit topic and nothing elsewhere |
| Gateway.WsConnectionRateLimitGuard.CanActivate | src/auth/guards/ws-connection-rate-limit.guard.ts:28-94 | admitted if and only if neither set is above its maximum; a refusal tells the client, and audits, the first limit exceeded, and disconnects; the registry is not touched |
| Gateway.BidThrottleInterceptor.Intercept | src/auction/interceptors/bid-throttle.interceptor.ts:44-86 | admitted if and only if fewer than the maximum of live timestamps are left by the prune; then the call's own is added and the key renewed, otherwise only the refusal is audited; both as the modelled throttle, and no other key changes |
| Gateway.AuctionGateway.HandlePlaceBid | src/auction/auction.gateway.ts:160-193 | one append of the client's own bid to its auction's partition of each of the three topics |
| Gateway.AuctionGateway.OnPlaceBid | src/auction/auction.gateway.ts:158-193 | an admitted bid is appended to its auction's partition of all three topics; a refused one leaves only its audit record |
| Gateway.AuctionGateway.HandleJoinAuction | src/auction/auction.gateway.ts:92-150 | the client sees the users online before it, then joins every set, then sees the auction; it is disconnected if the auction is closed, and rejected and audited without registration if there is none |
| Gateway.AuctionGateway.HandleDisconnect | src/auction/auction.gateway.ts:77-83 | the socket is disconnected and unregistered, and no key outside the registry is touched |
| Gateway.AuctionGateway.HandleEndAuction | src/auction/auction.gateway.ts:203-223 | the auction is ended as the sequential operation says, no other auction or key is touched, and the caller hears of a refusal only, not found or already closed as the case is |

## Left out

- The Kafka, Redis, Prisma and Socket.IO clients, connection handling, logging and framework wiring: only their effects on logs, keys, rows and sockets are modelled.
- Tokens, passwords, registration, login and the role and authentication guards; what a token proves is a parameter.
- The notification and audit consumers, the user interface, DTO validation and JSON encoding.
- Sub-cent amounts, overflow of the decimal columns and floating point.
- Rebalances that give one partition two owners, offsets skipped forward, and topics without the partition that an auction numbers.
- Missing users: every bidder and winner has a username, and no foreign key fails.
- End times and bid timestamps, `startingBid` and `startTime`: stored, never consulted by the bidding code.
- Message texts of rejections and summaries; a rejection is its code or its reason.
- Key texts: keys are typed, so two key templates that happen to render to the same string, and values of an unexpected Redis type, do not arise.
- Presence while a disconnect's commands after its MULTI interleave with a join, which can take a user offline who has just come online.
- A call of `zadd` whose EXPIRE is lost between the two commands.
- RegistryIndexes.PresenceReplays: a run without expiry, since an expired set publishes nothing.
- RegistryIndexes.IndexesAgree: a run without expiry; with a clock, RegistryExpiry.LiveSocketIsListed and RegistryLingering.ListedIff say what remains.
- Throttle.SlidingWindowRefines: one call at a time per user and a clock that does not go back; overlapping calls are ThrottleRace's.
- ThrottleRace.OverlapBound: for overlapping calls only the size of the set is bounded, not the rate.
- Outcomes.EveryBidAnsweredOnce: messages that carry a socket id; without one a refusal is not published at all.
- Sequential.ReadThroughRefines: bids carry their bidder's own username, as the gateway puts it there from the token.
