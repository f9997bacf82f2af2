# BitCord node core: a Dafny model

BitCord is a peer-to-peer chat system. This project models the part of it that has to be right in the
presence of strangers: the Kademlia-style DHT with its lookups and its disk store, the request handler
that many client sessions share, and three small parsers and loops around them. `dafny verify
dfyconfig.toml` checks all of it.

## What is modelled

- `Bits`, `NodeIds`: 256-bit identifiers as 32 bytes and as one number, and their exclusive-or distance.
  Exclusive or is defined on natural numbers and shown to be the bitwise one.
- `Sorting`, `Peers`: Rust's stable `sort_by_key` and `dedup_by_key`, and peer lists ordered by an
  injective rank. The rank in use is the distance to a target. The source compares distances as byte
  arrays; `NodeIds.DistanceOrder` shows that this is the order of the numbers.
- `RoutingTable`, `Progress`: the 256 buckets as a value, the least-recently-used meaning of a bucket, and
  why hops towards a target end.
- `Records`, `Capping`, `Expiry`, `Cooldown`: the three record stores, the cap of 20 records, runs of their
  operations with and without expiry, and the announcement slots.
- `Dht`: the mutable `DhtState` and its buckets. Each method computes the function of the same purpose.
- `Walk`, `Reports`, `Lookups`: the iterative lookup, first on paper over a set of known peers, then with the loops
  of the source; `Reports` says what a walk learns, offers to the routing table and ends with in terms of the answers
  themselves. Answers of peers are arbitrary, and one that is not in when the caller's deadline passes
  abandons the walk. The walk stands three times in the source and once here; `wanted` tells the mailbox
  lookup from the other two.
- `Store`, `Restarts`, `Handle`: the database on disk, pruning, snapshots and reload, runs of these over any number
  of restarts, cached lookups and the rate limited announcement.
- `Sessions`, `Admission`, `Membership`, `Certificates`, `Handler`: many sessions over one community store. `Handler` has
  the methods of one connection; `Sessions` has their steps, interleaved between any two store operations and
  with store operations that may fail; `Admission`, `Membership` and `Certificates` trace joins, members and
  stored certificates back to the step that let them in; `Handler.WholeJoin` and `Handler.WholePush` tie the two levels together.
- `Stun`, `Export`, `Connection`: the STUN response parser, the UTF-8-safe cut with the `.bcid` layout, and
  the connection states with their push readers and back-off.

Clocks, random numbers, network answers, decryption and signature checks are parameters. `Instant` is in
nanoseconds and Unix time in seconds, both natural numbers.

## Findings

Some properties one would expect do not hold of the code as it stands. Each is shown by concrete runs or
inputs, next to the condition under which it holds.

- A stored hosting certificate can be replaced. `handle_join_community` tests for metadata and writes it in
  separate store operations, so two first joins can both write, and the second write also wipes the manifest
  and members. A run keeps the certificate if sessions about to write for one community always carry the same
  one (`StoredCertIsStable`). Once one is stored, some continuation replaces it if and only if a session about to
  write for the community carries another (`EverReplacedIff`). Counted from any reachable state, two next steps
  can replace one if and only if that is so, or two sessions about to write carry different ones
  (`ReplaceableIff`). The race is reachable, and so is the state between its two writes (`RaceIsReachable`,
  `HalfRaceIsUnsettled`).
- The made-up certificate of `PushManifest` can be stored after a failed write in a join, whose error is
  dropped (`FailedWriteStoresPlaceholder`). A push leaves it behind if and only if its read brought back no
  metadata, or the made-up certificate was stored already (`PushStoresPlaceholderIff`). Without failed store
  operations it is never stored, unless it carries a valid signature after all (`PlaceholderIsNeverStored`).
- Authenticating again keeps what a session has joined. A session can join under one key and go on under another
  that was never let in (`OtherKeyIsAccepted`); a request is made under the key of the join if and only if the
  last key the session was given since is no other one (`KeyKeptIff`).
- Announcing a node can drop that very node from the list: if and only if 20 listed records are as new as the
  announcement (`NewcomerKeptIff`). Announcing 21 nodes in one second does it (`SameSecondKeepsFirst`).
- Expiry can be observed through the cap of 20. One expiry before one announcement shows in a later lookup if
  and only if it removed the very node that is announced and more than 20 records are still live
  (`Expiry.OneExpiryRunShowsIff`). Over longer runs a difference in the order of the list can come on top
  (`CapMakesExpiryObservable`). The order decides what is found if and only if the cap drops a live listed
  record while it keeps one of the same age (`OrderIrrelevantIff`). A run whose announcements leave at most 20
  records and never let the order decide shows no expiry (`ExpiryIsUnobservable`), and neither does a run
  without announcements.
- The cap does not bind a restart: records it has dropped come back from disk, and a list can be longer than 20
  (`RestartExceedsCap`). What a lookup finds after a restart is exactly what memory held at the last snapshot that
  found the node there, if it is still live (`RestartFindsIff`).
- The STUN parser bounds an attribute value by the received buffer and not by the message. Bytes behind the
  message change which attributes are read if and only if one overruns the message
  (`TrailingBytesMatterIff`), and the returned address if and only if, besides, no decodable XOR address stands
  before it and it decodes to something else than the last mapped one (`AddressChangesIff`, `OverrunIsRead`).
- A push reader that fails marks the manager down whatever connection is in use by then. An otherwise
  undisturbed connection can be taken down that way if and only if a reader of an earlier connection is still
  running (`TakenDownIff`, `StaleReaderTakesNewConnectionDown`). Only `reconnect_with_backoff` makes that
  possible (`NoStaleReaderWithoutReconnect`), and nothing in the repository calls it.
- `register_community_peer` uses up its slot even when the own address is unknown and nothing is announced
  (`Handle.RegisterCommunityPeer`).

The comment on `subscribe_push` (crates/bitcord-core/src/network/connection_manager.rs:190) promises up to
five reconnects; the reader it starts makes none (lines 200-213), and the model follows the reader.

## Model

| member | source | states |
|---|---|---|
| Bits.XorBit | crates/bitcord-dht/src/routing.rs:48 | exclusive or agrees with the bit operation on every bit |
| Bits.BitIs | crates/bitcord-dht/src/routing.rs:48 | bit i of a number stands between i lower bits and the rest |
| Bits.XorTopBit | crates/bitcord-dht/src/routing.rs:54-62 | the higher of two different top bits survives exclusive or, equal top bits cancel |
| NodeIds.LexIsNumeric | crates/bitcord-dht/src/routing.rs:39-41 | byte arrays compare like the big-endian numbers they stand for |
| NodeIds.XorBytesValue | crates/bitcord-dht/src/routing.rs:45-51 | the byte-wise distance is the exclusive or of the 256-bit numbers |
| NodeIds.DistIsMetric | crates/bitcord-dht/src/routing.rs:45-51 | distance is symmetric, zero exactly for equal identifiers, and satisfies the triangle inequality |
| NodeIds.DistInjective | crates/bitcord-dht/src/routing.rs:45-51 | no two identifiers are equally far from a third |
| NodeIds.DistanceOrder | crates/bitcord-dht/src/routing.rs:237 | sorting by distance bytes is sorting by the distance as a number |
| NodeIds.BucketOfRange | crates/bitcord-dht/src/routing.rs:54-62 | bucket i holds exactly the distances from 2^i to below 2^(i+1); only the own identifier has none; indices stay below 256 |
| NodeIds.Distance | crates/bitcord-dht/src/routing.rs:45-51 | the array filled in the loop is the byte-wise exclusive or |
| NodeIds.LeadingZeros | crates/bitcord-dht/src/routing.rs:57 | the count of leading zeros puts a non-zero byte between two powers of two |
| NodeIds.BucketIndex | crates/bitcord-dht/src/routing.rs:54-62 | the byte scan finds the index i with 2^i <= distance < 2^(i+1), and nothing exactly for distance zero |
| Sorting.SortBySorts | crates/bitcord-dht/src/routing.rs:237 | sorting orders a list and keeps every element as often as it was there |
| Sorting.SortByStable | crates/bitcord-core/src/dht/kademlia.rs:100 | elements with equal keys keep their order |
| Peers.SortKeepsFirst | crates/bitcord-core/src/dht/kademlia.rs:100 | a stable sort keeps the first address of every identifier first |
| Peers.NearingIsUnique | crates/bitcord-dht/src/routing.rs:227-243 | a list strictly sorted by an injective rank is determined by the set of peers in it |
| Peers.SortDedupIsByRank | crates/bitcord-core/src/dht/kademlia.rs:100-101 | sort, then dedup lists every identifier once, by strictly increasing distance, with the address that came first |
| RoutingTable.AddPeerKeepsInv | crates/bitcord-dht/src/routing.rs:216-225 | one call keeps 256 buckets of at most 20 distinct entries, each in the bucket of its own distance |
| RoutingTable.AddAllKeepsInv | crates/bitcord-dht/src/routing.rs:159-174 | so does every run of calls, whoever supplied the peers |
| RoutingTable.EntriesDistinct | crates/bitcord-dht/src/routing.rs:216-225 | no identifier stands twice anywhere in the table and the node itself never does |
| RoutingTable.UpsertIsMoveToEnd | crates/bitcord-dht/src/routing.rs:120-127 | a bucket that is the end of an unbounded move-to-end list stays one |
| RoutingTable.BucketIsLru | crates/bitcord-dht/src/routing.rs:120-127 | after any calls each of the 256 buckets is the last 20 of the unbounded list of last calls for it, oldest first |
| RoutingTable.LatestIsLastCall | crates/bitcord-dht/src/routing.rs:120-127 | that list holds a call exactly when no later call names the same identifier, so every entry has its latest address |
| RoutingTable.BucketHoldsIff | crates/bitcord-dht/src/routing.rs:120-127 | after any calls a bucket holds a peer if and only if it belongs there and its last call is followed by calls for fewer than 20 other identifiers of that bucket |
| RoutingTable.ClosestAreNearest | crates/bitcord-dht/src/routing.rs:227-243 | as many peers as asked for or held, by strictly increasing distance, none left out nearer than one returned |
| RoutingTable.ClosestDependsOnEntrySet | crates/bitcord-dht/src/routing.rs:227-243 | the answer depends on the set of entries only, not on buckets or order |
| RoutingTable.ClosestIsByRank | crates/bitcord-dht/src/routing.rs:227-243 | the answer is the beginning of all entries listed by distance |
| Progress.EntryDistance | crates/bitcord-dht/src/routing.rs:54-62 | seen from a target of bucket b, entries of bucket b lie below 2^b and all others at 2^b or beyond |
| Progress.ClosestBucketOrder | crates/bitcord-dht/src/routing.rs:216-243 | the answer lists the target's bucket first, then all lower buckets, then higher ones in ascending order, whatever buckets two of its entries come from |
| Progress.FirstAnswerInTargetBucket | crates/bitcord-dht/src/routing.rs:227-243 | the first answer comes from the target's bucket if that is not empty |
| Progress.HopLowersBucket | crates/bitcord-dht/src/routing.rs:227-243 | a hop to the first answer ends at the target or at a node with the target in a strictly lower bucket |
| Progress.ChainIsShort | crates/bitcord-dht/src/routing.rs:227-243 | along a chain of hops the bucket strictly falls, so it has at most 256 hops |
| Records.SetRecordEffect | crates/bitcord-dht/src/routing.rs:329-337 | storing replaces that node's record, leaves every other alone and lists no node twice |
| Records.SetRecordPlace | crates/bitcord-dht/src/routing.rs:329-337 | a listed node keeps its place in the list, a new one comes last |
| Records.ExpireListsEffect | crates/bitcord-dht/src/routing.rs:395-402 | expiry drops exactly the records announced 3600 seconds ago or earlier |
| Records.LookupPeersAre | crates/bitcord-dht/src/routing.rs:315-327 | a lookup returns exactly the records of the community announced less than 3600 seconds ago |
| Records.LiveOnlyOrder | crates/bitcord-dht/src/routing.rs:315-327 | in the order of the list |
| Records.AnnounceAgain | crates/bitcord-dht/src/routing.rs:299-301 | announcing a listed node changes its record only |
| Records.AnnounceNew | crates/bitcord-dht/src/routing.rs:302-312 | announcing a new node leaves at most 20 records and drops none that is strictly newer than one kept |
| Records.AnnounceInOthers | crates/bitcord-dht/src/routing.rs:298 | announcing in one community changes no record and no lookup of any other |
| Records.NewcomerKeptIff | crates/bitcord-dht/src/routing.rs:302-312 | the new node itself is kept exactly when fewer than 20 listed records are as new |
| Expiry.RunKeepsListsInv | crates/bitcord-dht/src/routing.rs:290-337 | no run of announcing, adding and expiring lists a node twice in a community |
| Expiry.AnnouncedListsStayCapped | crates/bitcord-dht/src/routing.rs:290-313 | lists built by announcing only never exceed 20 records |
| Expiry.ExpireLeaves | crates/bitcord-dht/src/routing.rs:385-410 | after an expiry exactly the mailboxes before their expiry, the community peers announced less than 3600 and the peer infos announced less than 86,400 seconds ago are left, unchanged, and no empty list |
| Expiry.UnexpiredAre | crates/bitcord-dht/src/routing.rs:385-393 | taking the expiries out of a run keeps exactly its other operations, in order |
| Expiry.ExpiryIsUnobservable | crates/bitcord-dht/src/routing.rs:248-410 | taking every expiry out of a run changes no later lookup in any of the three stores, as long as announcements leave at most 20 records and the cap drops no record the lookup would find while it keeps one of the same age |
| Expiry.ExpiryIsUnobservableWithoutAnnouncing | crates/bitcord-dht/src/routing.rs:248-410 | in a run that announces no community peer no condition is needed |
| Expiry.OneExpiryRunShowsIff | crates/bitcord-dht/src/routing.rs:290-313 | from any state, an expiry right before an announcement shows in a later lookup if and only if it removed the announced node and more than 20 records are still live |
| Expiry.SameSecondKeepsFirst | crates/bitcord-dht/src/routing.rs:302-312 | of nodes announced to an empty list in one second the first 20 are listed, so the 21st drops itself |
| Expiry.AnnouncedRunsAreCapped | crates/bitcord-dht/src/routing.rs:290-313 | runs that announce and never add meet the first of these conditions |
| Capping.CutsAgree | crates/bitcord-dht/src/routing.rs:308-311 | capping two sets with the same live records leaves the same live records, if one of the cuts drops no live record as new as one it keeps |
| Capping.CleanIff | crates/bitcord-dht/src/routing.rs:308-311 | that condition holds if and only if every way to cut the set leaves the same live records |
| Capping.OrderIrrelevantIff | crates/bitcord-dht/src/routing.rs:290-313 | an announcement keeps the same live records for every order of the list if and only if it drops no listed live record while it keeps one of the same age |
| Capping.OneExpiryShowsIff | crates/bitcord-dht/src/routing.rs:290-313 | the exact condition of one expiry before one announcement, for lists |
| Capping.SortSplits | crates/bitcord-dht/src/routing.rs:309 | sorting by age puts live records first and leaves the order among them alone |
| Expiry.CapMakesExpiryObservable | crates/bitcord-dht/src/routing.rs:308-311 | a cut between equals shows expiry: a family of runs in which it decides which of two equally old records survives |
| Expiry.LongListMakesExpiryObservable | crates/bitcord-dht/src/routing.rs:299-311 | so does a longer list: a family of runs that find 20 records with the expiry and 21 without |
| Cooldown.MapHoldsLastGrant | crates/bitcord-dht/src/routing.rs:186-212 | after any calls the slot map holds the latest grant, and nothing exactly if there was none |
| Cooldown.GrantsAreSpaced | crates/bitcord-dht/src/routing.rs:186-212 | any two granted calls for one slot of one community are at least the cooldown apart |
| Cooldown.RefusedIff | crates/bitcord-dht/src/routing.rs:186-212 | a call is refused exactly when an earlier call was granted the same slot less than the cooldown before |
| Cooldown.WindowBound | crates/bitcord-dht/src/routing.rs:186-212 | any granted calls for a slot within a window of length L are at most L / C + 1 |
| Cooldown.SlotsDoNotInterfere | crates/bitcord-dht/src/routing.rs:152-155 | a run of only the calls for one slot of one community grants exactly those of them that the whole run grants |
| Dht.KBucket.Upsert | crates/bitcord-dht/src/routing.rs:120-127 | the position scan, removal and push compute the bucket update |
| Dht.DhtState.constructor | crates/bitcord-dht/src/routing.rs:159-174 | 256 separate empty buckets and empty stores |
| Dht.DhtState.AcquireDiscoverSlot | crates/bitcord-dht/src/routing.rs:186-198 | grants and records the slot exactly when it is free; the other slot is untouched |
| Dht.DhtState.AcquireAnnounceSlot | crates/bitcord-dht/src/routing.rs:200-212 | the same for announcing |
| Dht.DhtState.AddPeer | crates/bitcord-dht/src/routing.rs:216-225 | updates one bucket of the table, none for the own identifier, and keeps the table invariant |
| Dht.DhtState.ClosestPeers | crates/bitcord-dht/src/routing.rs:227-243 | flattening, sorting and taking compute the closest peers of the table |
| Dht.DhtState.SetSelfAddr | crates/bitcord-dht/src/routing.rs:180-182 | only the own address changes |
| Dht.DhtState.AnnounceMailbox | crates/bitcord-dht/src/routing.rs:248-258 | stores a record for 24 hours if the own address is known, else nothing changes |
| Dht.DhtState.AddMailboxRecord | crates/bitcord-dht/src/routing.rs:271-279 | stores a record for 24 hours and keeps everything else |
| Dht.DhtState.LookupMailbox | crates/bitcord-dht/src/routing.rs:260-269 | answers from an unexpired record only |
| Dht.DhtState.AddCommunityPeerRecord | crates/bitcord-dht/src/routing.rs:329-337 | replaces or appends one record of one community, lists no node twice and leaves all other communities alone |
| Dht.DhtState.AnnounceCommunityPeer | crates/bitcord-dht/src/routing.rs:290-313 | updates, or appends and caps, one community's list and leaves all other communities alone |
| Dht.DhtState.LookupCommunityPeers | crates/bitcord-dht/src/routing.rs:315-327 | returns the live records in list order |
| Dht.DhtState.AnnouncePeerInfo | crates/bitcord-dht/src/routing.rs:346-363 | stores one peer info record |
| Dht.DhtState.AddPeerInfoRecord | crates/bitcord-dht/src/routing.rs:379-381 | stores one peer info record as it came |
| Dht.DhtState.ExpireRecords | crates/bitcord-dht/src/routing.rs:385-393 | drops dead records from all three stores and nothing else |
| Dht.DhtState.ExpireCommunityPeers | crates/bitcord-dht/src/routing.rs:395-402 | the loop over lists leaves the live records and no empty list |
| Walk.KnownIsHeard | crates/bitcord-core/src/dht/kademlia.rs:85-102 | at the start of a round known is exactly seeds plus reports, each identifier with the address heard first |
| Walk.BatchIsNearest | crates/bitcord-core/src/dht/kademlia.rs:63-66 | a round contacts the up to three nearest known unvisited peers |
| Walk.WalkContacts | crates/bitcord-core/src/dht/kademlia.rs:60-102 | no peer is contacted twice, at most three a round, always at the address heard first, for arbitrary answers |
| Walk.WorkListRefines | crates/bitcord-core/src/dht/kademlia.rs:91-101 | draining, pushing, sorting and deduplicating gives the sorted list of what is known and unvisited |
| Walk.OutcomeContacts | crates/bitcord-core/src/dht/kademlia.rs:49-105 | however a lookup ends, at most 24 peers were contacted, none twice, each at the address heard first; if it ended by itself before the eighth round, everything heard of was contacted |
| Reports.NamedIsKnown | crates/bitcord-core/src/dht/kademlia.rs:91-96 | every peer in the reply of a contacted peer is known from the next round on |
| Reports.KnownIff | crates/bitcord-core/src/dht/kademlia.rs:85-102 | an identifier is known with an address if and only if its first seed has it or, for no seed, the first entry of a reply of a contacted peer that names the identifier does |
| Reports.CallsAreNamed | crates/bitcord-core/src/dht/kademlia.rs:91-96 | however a lookup ends, it offers to the routing table exactly the peers named by contacted peers before the end and not visited by then, in that order |
| Reports.EndingMeans | crates/bitcord-core/src/dht/kademlia.rs:85-105 | an address is found exactly where the answer at the end names it, a walk is abandoned exactly where that answer is pending, no earlier answer does either, and otherwise eight rounds were walked or nothing is left |
| Reports.SeedsAreNearest | crates/bitcord-core/src/dht/kademlia.rs:49-58 | the seeds are the up to 20 entries of the table nearest to the target |
| Reports.RoundContacts | crates/bitcord-core/src/dht/kademlia.rs:62-83 | a round contacts the up to three nearest peers that are known and were not contacted before, at their known addresses |
| Lookups.MarkBatch | crates/bitcord-core/src/dht/kademlia.rs:73-83 | the whole batch is visited before any of it answers |
| Lookups.TakeUp | crates/bitcord-core/src/dht/kademlia.rs:91-96 | exactly the unvisited peers of a reply go to table and work list, in order |
| Lookups.AwaitReplies | crates/bitcord-core/src/dht/kademlia.rs:85-98 | answers are handled in batch order up to the first that ends the walk, which alone decides how it ends |
| Lookups.OneRound | crates/bitcord-core/src/dht/kademlia.rs:62-102 | one round of the loop is one round on paper |
| Lookups.WalkFrom | crates/bitcord-core/src/dht/kademlia.rs:60-102 | up to eight rounds from given seeds end as the walk on paper does |
| Lookups.FindNodes | crates/bitcord-core/src/dht/kademlia.rs:133-175 | the loop ends as the walk on paper does, and changes the table by exactly the walk's calls, keeping its invariant |
| Lookups.KademliaLookup | crates/bitcord-core/src/dht/kademlia.rs:43-105 | returns the mailbox of the first peer, in contact order, that names one and stores it; returns nothing only if no peer named one before the walk ended or was abandoned |
| Lookups.QueriedAreNearest | crates/bitcord-core/src/dht/kademlia.rs:177-180 | the nodes of the second phase are the nearest of all contacted nodes, as many as there are up to 20 |
| Lookups.PickNearest | crates/bitcord-core/src/dht/kademlia.rs:177-180 | sorting, deduplicating and truncating picks exactly them |
| Lookups.KeepFirstRecords | crates/bitcord-core/src/dht/kademlia.rs:203-217 | a merged list names exactly the nodes of all answers, each once, with the earliest record |
| Lookups.RemoteFirst | crates/bitcord-core/src/dht/kademlia.rs:203-217 | the earliest remote record wins and local ones only fill gaps |
| Lookups.KeepFirstCollects | crates/bitcord-core/src/dht/kademlia.rs:187-217 | every node in a queried node's answer or in a local record is returned, and nothing that stands in neither |
| Lookups.FirstAnswerWins | crates/bitcord-core/src/dht/kademlia.rs:187-209 | a node is returned with its record from the first queried node whose answer has one |
| Lookups.Merge | crates/bitcord-core/src/dht/kademlia.rs:205-209 | the loop with a set of seen nodes keeps first records |
| Lookups.FindCommunityPeers | crates/bitcord-core/src/dht/kademlia.rs:111-225 | the nodes asked are the up to 20 nearest contacted ones; every node of their answers and every unexpired local one is returned once, with its earliest record in query order, and nothing else is |
| Lookups.KeepFirstMerges | crates/bitcord-core/src/dht/kademlia.rs:203-217 | what keeping first records of remote and then local ones means, node by node |
| Lookups.FindPeerInfo | crates/bitcord-core/src/dht/kademlia.rs:231-317 | the nodes asked are the nearest contacted ones, and for every order of arrival the first record to arrive from one of them is returned |
| Lookups.NothingArrivesIff | crates/bitcord-core/src/dht/kademlia.rs:308-316 | when all of them are awaited, nothing is returned exactly when none has a record |
| Lookups.FirstArrival | crates/bitcord-core/src/dht/kademlia.rs:308-316 | awaiting the answers finds the first record to arrive |
| Lookups.MergeAnswers | crates/bitcord-core/src/dht/kademlia.rs:187-217 | all remote answers in query order, then local records, with one record per node |
| Store.KeyInjective | crates/bitcord-dht/src/store.rs:21-26 | different (community, node) pairs have different keys |
| Store.DhtPeerKey | crates/bitcord-dht/src/store.rs:21-26 | the filled key is community key, then node key |
| Store.PruningIsUnobservable | crates/bitcord-dht/src/expiry.rs:23-30 | restarting from the pruned and from the whole disk gives the same peers from the time of pruning on |
| Store.RestartAfterSnapshot | crates/bitcord-dht/src/expiry.rs:42-52 | a restart restores exactly the record of every pair that was in memory, and other pairs as they were on disk |
| Store.NothingLiveIsLost | crates/bitcord-dht/src/expiry.rs:14-55 | after snapshot, pruning and restart every live record that was in memory is found, and nothing but old disk records besides |
| Restarts.RestartFindsIff | crates/bitcord-core/src/dht/mod.rs:84-98 | after any announcements, additions, ticks, snapshots and restarts, a lookup after a restart finds exactly the live records that were in memory at the last snapshot that found their node there |
| Restarts.DiskIsSaved | crates/bitcord-dht/src/expiry.rs:20-52 | the disk holds nothing but what was saved last for a node, and all of it that is still live |
| Restarts.SnapshotSurvives | crates/bitcord-dht/src/expiry.rs:38-54 | a saved record that nothing replaces is never lost while live: on disk always, in memory again after every restart, whether the cap dropped it in between or not |
| Restarts.RestartExceedsCap | crates/bitcord-core/src/dht/mod.rs:84-98 | so a restart can bring back more than 20 records of a community |
| Store.DhtStore.SetCommunityPeerRecord | crates/bitcord-dht/src/store.rs:49-63 | writes one record under its pair's key |
| Store.DhtStore.AllCommunityPeerRecords | crates/bitcord-dht/src/store.rs:66-87 | returns exactly the readable records with their communities, in any order of reading |
| Store.DhtStore.RemoveExpiredCommunityPeers | crates/bitcord-dht/src/store.rs:90-120 | removes exactly the records announced before the cutoff |
| Store.DhtStore.RemoveExpiredPeerInfos | crates/bitcord-dht/src/store.rs:174-204 | the same for peer info |
| Store.ExpiryTick | crates/bitcord-dht/src/expiry.rs:20-35 | memory is expired, and both tables keep exactly what does not decode and what was announced at most 3600 or 86,400 seconds ago |
| Store.Snapshot | crates/bitcord-dht/src/expiry.rs:42-52 | every pair in memory is on disk with its record, every other pair as before |
| Store.Reload | crates/bitcord-core/src/dht/mod.rs:74-112 | the lists hold exactly the readable records of the disk, the routing table is what offering their nodes in the order of reading makes it, and all other stores and both slot maps are empty |
| Store.OfferedAre | crates/bitcord-core/src/dht/mod.rs:84-98 | the nodes offered are those of the records read, with their addresses, one for one |
| Handle.FindMailboxPeers | crates/bitcord-core/src/dht/mod.rs:140-163 | a cached answer touches nothing; otherwise the answer is the walk's and is cached; a walk past its deadline leaves its table updates and finds nothing |
| Handle.FindPeerInfo | crates/bitcord-core/src/dht/mod.rs:367-397 | the same for peer info |
| Handle.FoundIsCached | crates/bitcord-core/src/dht/mod.rs:140-163 | after any operations, expiries included, that store nothing else for that user, what was found is answered for 24 hours and not a moment longer |
| Handle.OthersUnaffected | crates/bitcord-core/src/dht/mod.rs:140-163 | storing it changes no other user's answer, now or after any operations |
| Handle.AnnouncedIsAnswered | crates/bitcord-dht/src/routing.rs:248-269 | announcing a mailbox makes the own address, as set last, the answer for 24 hours and not a moment longer, after any operations that store nothing else for that user |
| Handle.NotAnnouncedWithoutAddress | crates/bitcord-dht/src/routing.rs:248-258 | announcing one before any own address is set changes nothing |
| Handle.InfoIsCached | crates/bitcord-dht/src/routing.rs:346-381 | a peer info record is answered for 86,400 seconds from its announcement and not a second longer, after any operations that store nothing else for that peer |
| Handle.RegisterCommunityPeer | crates/bitcord-core/src/dht/mod.rs:207-254 | a refused slot changes nothing; a granted one, at most one a minute, announces and names the 20 closest peers if the own address is known; other communities are left alone |
| Sessions.RunIsSafe | crates/bitcord-core/src/node/handler.rs:76-113 | in every interleaved run, store failures included: joined communities never repeat and need authentication, accepted requests and filtered pushes follow a join on the same session, one notification per session and community |
| Sessions.RunGains | crates/bitcord-core/src/node/handler.rs:30-49 | an authenticated session stays authenticated, joined communities stay joined in order, and the log of events only grows |
| Sessions.RunProvesKeys | crates/bitcord-core/src/node/handler.rs:682-711 | in every run a session acts for a key only after a request on that session carried a signature that verifies under it |
| Admission.JoinsWereAllowed | crates/bitcord-core/src/node/handler.rs:713-838 | in every interleaved run, store failures included, whoever has joined a community completed a join on that session that started as an authenticated, listed member, or with the password and a certificate for this node, signed and not expired at that step |
| Admission.AcceptedAfterAllowedJoin | crates/bitcord-core/src/node/handler.rs:231-287 | so every accepted request and every push relayed for a community comes after such a join |
| Admission.KeyKeptIff | crates/bitcord-core/src/node/handler.rs:682-711 | the session's key is the one it had at an earlier step, such as its join, if and only if the last key it was given since is no other one |
| Membership.MembersWerePushed | crates/bitcord-core/src/node/handler.rs:623-649 | in every interleaved run, store failures included, every stored member was listed by an accepted manifest push for that community |
| Membership.StrangersNeedCertificates | crates/bitcord-core/src/node/handler.rs:734-787 | so whoever gets into a join without the password and a valid certificate has a key that such an earlier push lists |
| Membership.LetInAfterPushIff | crates/bitcord-core/src/node/handler.rs:734-787 | right after a push, whoever holds a key may join if and only if the push lists it with the last member of its user identifier, or by password and certificate; nobody else changes anything |
| Membership.MembersAre | crates/bitcord-core/src/node/handler.rs:642-645 | of members pushed under one user identifier the last one is stored |
| Membership.PushMeans | crates/bitcord-core/src/node/handler.rs:608-650 | a whole push stores manifest, channels, keys and members as pushed, keeps the certificate and leaves other communities alone |
| Membership.FirstJoinMeans | crates/bitcord-core/src/node/handler.rs:786-838 | a whole first join of an unknown community stores the certificate and nothing else, joins, and notifies if an identifier was given |
| Membership.RefusalCodes | crates/bitcord-core/src/node/handler.rs:211-784 | a refused join is answered 401 without authentication, else 400 for a malformed key, else 403 |
| Membership.PlaceholderIs | crates/bitcord-core/src/node/handler.rs:627-632 | the made-up certificate is for this community and node, never expires and lacks only a valid signature |
| Membership.ServedIff | crates/bitcord-core/src/node/handler.rs:231-680 | in every reachable state each of the four community requests is accepted if and only if the session has joined the community, and changes nothing otherwise |
| Membership.SentIff | crates/bitcord-core/src/node/handler.rs:76-113 | in every reachable state a push for a community is sent exactly to sessions that have joined it, one for everyone exactly to authenticated ones |
| Certificates.OtherKeyIsAccepted | crates/bitcord-core/src/node/handler.rs:708-710 | a run in which a session joins under one key and its message is accepted under another |
| Certificates.RunKeepsStored | crates/bitcord-core/src/node/handler.rs:786-833 | in every interleaved run without store failures a session that has joined a community finds its metadata |
| Certificates.StoredCertWasChecked | crates/bitcord-core/src/node/handler.rs:713-807 | there every stored certificate was stored by a join that itself started with the password and this certificate: for its community and this node, signed and not expired at that step |
| Certificates.PlaceholderIsNeverStored | crates/bitcord-core/src/node/handler.rs:623-649 | without store failures the made-up certificate is never stored, unless it carries a valid signature |
| Certificates.PushStoresPlaceholderIff | crates/bitcord-core/src/node/handler.rs:623-649 | with them a push leaves it behind if and only if its read brought back no metadata or it was stored before, whatever other sessions do between its read and its write |
| Certificates.StoredCertIsStable | crates/bitcord-core/src/node/handler.rs:786-807 | a stored certificate never changes as long as concurrent first writers agree on it |
| Certificates.RaceReplaces | crates/bitcord-core/src/node/handler.rs:799-807 | two concurrent first writers with different certificates replace one by the other |
| Certificates.ReplaceableIff | crates/bitcord-core/src/node/handler.rs:786-807 | in every state reachable without store failures two next steps can replace a stored certificate if and only if two sessions about to write disagree, or one would write another than the stored one |
| Certificates.EverReplacedIff | crates/bitcord-core/src/node/handler.rs:786-807 | once a certificate is stored, some continuation without store failures replaces it if and only if a session about to write carries another |
| Certificates.HalfRaceIsUnsettled | crates/bitcord-core/src/node/handler.rs:799-807 | between the two writes of the race the stored certificate is about to be replaced |
| Certificates.RaceIsReachable | crates/bitcord-core/src/node/handler.rs:713-807 | two clients with valid certificates can both get to be about to write |
| Certificates.FailedWriteStoresPlaceholder | crates/bitcord-core/src/node/handler.rs:806 | one dropped write error lets the made-up certificate be stored |
| Handler.HandleAuthenticate | crates/bitcord-core/src/node/handler.rs:682-711 | the key changes exactly when it is well formed and the signature verifies |
| Handler.HandleJoinCommunity | crates/bitcord-core/src/node/handler.rs:713-838 | a refused join changes nothing; an accepted one stores fresh metadata only if there was none, joins once and notifies about the first join only |
| Handler.HandlePushManifest | crates/bitcord-core/src/node/handler.rs:608-650 | a member's push replaces everything but the certificate, any other push nothing |
| Handler.WholeJoin | crates/bitcord-core/src/node/handler.rs:713-838 | uninterrupted, in any world, the steps of a join change store, session and log exactly as the handler does and nothing else |
| Handler.WholePush | crates/bitcord-core/src/node/handler.rs:608-650 | likewise for a manifest push |
| Stun.ParseStunResponse | crates/bitcord-core/src/network/nat.rs:183-237 | on every buffer: in range, terminating, and the first decodable XOR-MAPPED-ADDRESS, else the last MAPPED-ADDRESS; an address comes only from a buffer that starts with a whole response to this transaction |
| Stun.HeaderOkIff | crates/bitcord-core/src/network/nat.rs:184-203 | the header test accepts exactly the buffers that start with an encoded response to this transaction with all of its body |
| Stun.OneTransaction | crates/bitcord-core/src/network/nat.rs:196-198 | no buffer is accepted for two transactions |
| Stun.ResultIs | crates/bitcord-core/src/network/nat.rs:219-236 | the answer is the first XOR-MAPPED-ADDRESS that decodes; else what the last MAPPED-ADDRESS says, even if that does not decode; else nothing |
| Stun.MappedDecodesIff | crates/bitcord-core/src/network/nat.rs:257-271 | MAPPED-ADDRESS decodes to an address exactly for IPv4 values that carry its port and address in network order |
| Stun.XorIsMappedWithCookie | crates/bitcord-core/src/network/nat.rs:239-255 | XOR-MAPPED-ADDRESS decodes like MAPPED-ADDRESS after exclusive or of every byte with the cookie |
| Stun.ReadAttributes | crates/bitcord-core/src/network/nat.rs:205-236 | the attribute loop alone |
| Stun.ResultFromIs | crates/bitcord-core/src/network/nat.rs:205-236 | the running answer of the loop is first-XOR-else-last-mapped of all attributes |
| Stun.AttrsOfEncoding | crates/bitcord-core/src/network/nat.rs:208-234 | reading encoded attributes with any padding gives them back |
| Stun.ParseInvertsEncode | crates/bitcord-core/src/network/nat.rs:183-237 | an encoded response is accepted and read as its attributes, even with bytes behind it |
| Stun.XorMappedRoundTrip | crates/bitcord-core/src/network/nat.rs:239-255 | every IPv4 address and port survive XOR-MAPPED-ADDRESS |
| Stun.MappedRoundTrip | crates/bitcord-core/src/network/nat.rs:257-271 | every IPv4 address and port survive MAPPED-ADDRESS |
| Stun.ReportedAddressIsRead | crates/bitcord-core/src/network/nat.rs:219-224 | an address reported among any other padded attributes is the one returned |
| Stun.TrailingBytesMatterIff | crates/bitcord-core/src/network/nat.rs:213-215 | bytes behind the message change which attributes are read exactly when an attribute overruns the message |
| Stun.OverrunComesLast | crates/bitcord-core/src/network/nat.rs:213-217 | the overrunning attribute is read last, after those of the message |
| Stun.AddressChangesIff | crates/bitcord-core/src/network/nat.rs:205-236 | the exact condition under which it changes the returned address |
| Stun.OverrunIsRead | crates/bitcord-core/src/network/nat.rs:213-217 | a family of buffers in which that happens |
| Export.ValidPrefixIff | crates/bitcord-core/src/identity/export.rs:195 | in a valid string exactly the prefixes that end on a character boundary are valid |
| Export.BoundaryWithinFour | crates/bitcord-core/src/identity/export.rs:194-197 | four neighbouring bytes are never all continuation bytes |
| Export.TruncateToByteLen | crates/bitcord-core/src/identity/export.rs:190-199 | the cut is the longest valid prefix that fits and gives up at most three bytes |
| Export.Create | crates/bitcord-core/src/identity/export.rs:49-70 | writes magic, version, length, the name cut to 64 bytes and the key blob |
| Export.LoadInvertsCreate | crates/bitcord-core/src/identity/export.rs:77-112 | loading a created bundle recovers the identity and exactly the cut name, or none if empty |
| Export.LoadAcceptsOnlyLayouts | crates/bitcord-core/src/identity/export.rs:77-112 | whatever loads starts with the layout of what was read, and a name is non-empty valid UTF-8 |
| Export.LoadErrors | crates/bitcord-core/src/identity/export.rs:77-112 | which error a file that does not load gets |
| Export.CutBundlesAreRefused | crates/bitcord-core/src/identity/export.rs:77-96 | a bundle cut anywhere before its end is refused as too short or truncated |
| Export.ValidUtf8Iff | crates/bitcord-core/src/identity/export.rs:101-105 | valid names are exactly the UTF-8 encodings of sequences of Unicode scalar values |
| Connection.DownIsPermanent | crates/bitcord-core/src/network/connection_manager.rs:114-143 | without reconnecting, Down is final and Fresh never comes back |
| Connection.OpensAtMostOnce | crates/bitcord-core/src/network/connection_manager.rs:114-143 | without reconnecting, a manager opens at most one connection |
| Connection.FreshIff | crates/bitcord-core/src/network/connection_manager.rs:114-121 | a manager is Fresh exactly until the first attempt that succeeds; failed ones leave it Fresh |
| Connection.DownIff | crates/bitcord-core/src/network/connection_manager.rs:86-143 | a manager is Down exactly when an opened connection was found closed or a reader failed, and no reconnect has succeeded since |
| Connection.LastsIff | crates/bitcord-core/src/network/connection_manager.rs:200-252 | a connection nobody replaces or finds closed, and whose own readers do not fail, lasts exactly as long as no reader of an earlier connection fails |
| Connection.TakenDownIff | crates/bitcord-core/src/network/connection_manager.rs:242-248 | in every reachable state such a connection can be taken down if and only if a reader of an earlier connection is still running |
| Connection.NoStaleReaderWithoutReconnect | crates/bitcord-core/src/network/connection_manager.rs:86-106 | where nobody reconnects there is none |
| Connection.StaleReaderTakesNewConnectionDown | crates/bitcord-core/src/network/connection_manager.rs:242-248 | after n reconnects with a reader each, the failure of any earlier connection's reader takes the last connection down |
| Connection.StoppedReadersAreHarmless | crates/bitcord-core/src/network/connection_manager.rs:216-241 | readers that have stopped do nothing: without other readers of earlier connections an undisturbed connection lasts |
| Connection.ConnectionManager.GetConnection | crates/bitcord-core/src/network/connection_manager.rs:114-143 | a first attempt that fails leaves Fresh, a closed connection leaves Down, an open one is returned again, and Down returns nothing |
| Connection.ConnectionManager.SubscribePush | crates/bitcord-core/src/network/connection_manager.rs:191-213 | a reader starts on the connection it gets, if any |
| Connection.ConnectionManager.PushReaderEnds | crates/bitcord-core/src/network/connection_manager.rs:216-251 | the reader's end is the machine's step: down only if accepting a stream failed, whatever connection is in use |
| Connection.ConnectionManager.ReconnectWithBackoff | crates/bitcord-core/src/network/connection_manager.rs:86-106 | pauses of min(100 * 2^(k-1), 30000) ms after failed attempt k, connected to the first success, `unreachable!` exactly with no attempt allowed |
| Connection.TotalWait | crates/bitcord-core/src/network/connection_manager.rs:86-106 | n pauses take 100 * (2^n - 1) ms for n up to 9, and 30 s more for every further one |

## Left out

- Cryptography (Ed25519, X25519, XChaCha20-Poly1305, HKDF, Argon2id): signature checks and decryption are parameters.
- QUIC, TLS, UPnP, UDP sockets, DNS, mDNS and task spawning: only the order of steps they impose is kept.
- redb transactions and postcard bytes: tables are maps, a stored value decodes or does not; I/O errors of the DHT database are not modelled, those of the community store are in `Sessions`.
- Lookups.FindPeerInfo: does not model a task that panics; it counts as a node without a record.
- Removal of communities from the node store, message logs, DM mailboxes, retention and their sequence numbers.
- The other arms of `dispatch`: `SendDm`, `GetDms`, `FetchManifest` and `Gossip` ask for authentication only and change no session or community metadata (`Gossip` may append to a message log); the DHT arms call the `DhtState` operations modelled here; `StorePeerInfo` checks its record before storing it, which is not modelled.
- `register_mailbox` and `register_peer_info`: they announce and name the 20 closest peers like `register_community_peer`, without a slot; writing a peer info record to disk and `bootstrap` are not modelled.
- Expiry.ExpiryIsUnobservable: over runs of any length the condition is sufficient; it is exact for one expiry before one announcement (`Expiry.OneExpiryRunShowsIff`) and, as to the order of the list, for one announcement (`Capping.OrderIrrelevantIff`). Whether an earlier difference is still there at the lookup depends on all later operations.
- Certificates.StoredCertIsStable: assumes that no store operation fails; after a failed read a join can take a stored community for a new one.
- Certificates.StoredCertWasChecked: assumes that no store operation fails; `Certificates.PushStoresPlaceholderIff` says when a push stores another certificate.
- Unix time beyond 64 bits and overflow of `Instant`.
- Length-prefix framing, bandwidth limits, configuration, the RPC server and the user interface.
