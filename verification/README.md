# RexMq, modelled and proved in Dafny

RexMq is a publish/subscribe broker. This project models the parts of it where state has to stay in step, and proves
what they promise for every input, every run and every reachable state, or exactly when it holds:

- the consistent-hash ring and the cluster's route table,
- title routing and forwarding between nodes, as runs of a whole cluster,
- the offline message store, its login drain and its message ids,
- the client registry and the life cycle of clients, ghosts and persisted rows,
- the Rex packet, the server's stream parser and the cluster's frame reader,
- the acknowledgement protocol,
- round-robin group sends.

`dafny verify dfyconfig.toml` checks everything. Nothing here was executed.

## How it is built

Each component comes in two layers. A `...Theory` module has the state as a value, each operation as a function on it,
and the lemmas. A second module has the component in the source's own form: classes with fields updated in place,
loops, packets edited byte by byte. Every method there is proved against the functions of the first layer, so the
lemmas speak about it.

| files | component |
|---|---|
| `Common`, `Bytes` | sequences without repetition, deletion, byte fields |
| `RingTheory`, `RingWalk`, `HashRing` | the ring |
| `RouteTheory`, `RouteTable` | the route table |
| `ForwardTheory`, `Forwarder`, `Router`, `TitleTheory`, `Title`, `TitleServer`, `ClusterRuns` | routing, forwarding, the cluster's runs |
| `OfflineTheory`, `OfflineStore`, `QueueOrder`, `OfflineLedger`, `OfflineRuns`, `HandOverRuns`, `FateCauses`, `TimestampOrder`, `MessageId` | offline messages |
| `RegistryTheory`, `Registry`, `RegistryObject`, `SessionTheory`, `SessionRuns`, `HandOver`, `Services` | clients, ghosts, rows |
| `Connections`, `ConnectionRuns` | client objects whose id a login sets, and runs of them |
| `LedgerSweep`, `JointRuns`, `MintedRuns` | clients, rows and offline messages in one run |
| `PacketTheory`, `Packet`, `StreamTheory`, `Stream`, `ClusterFrameTheory`, `ClusterFrame` | bytes on the wire |
| `AckTheory`, `AckHistory`, `AckWire`, `Ack` | acknowledgements |
| `RoundRobin` | group sends |

Clocks, random choices, map iteration order, the hash function and the outcome of sends and connects are parameters
or left open, so every result holds for all of them. A send to a client's connection counts as given to that client.
Each public operation is one step; a login and a sweep are one step each. u64 and u128 widths, wrap-around and the
truncating casts of the packet and frame lengths are written out.

## What the code does not do

Where a promise is false of the code, the model keeps the code, and a lemma states exactly when the promise holds:

- Two ring histories with the same nodes can disagree when two nodes share a hash (`HistoryIndependentExactly`).
- A title with `;`, or an empty one, breaks the title index (`RegisterTitleAgreesExactly`); so does a repeated login
  that brings new titles (`RepeatedLoginAgreesExactly`).
- A connection may log in again under another id while it is registered (crates/rex-server/src/handler/login.rs:42-47
  has no guard). The old id stays live, is indexed under nothing, and outlives the connection
  (`SecondLoginAgreesExactly`, `StrandedClient`).
- A reused message id or a removal naming another client breaks the offline store (`AddConsistent`,
  `RemoveConsistent`); more than 65536 ids in one second repeat (`IdsDistinctExactly`), and so can ids of
  one second before and after a restart, as the counter starts again at 0 (`MintedRunsExactly`, `RestartRepeatsAnId`).
- The ghost sweep forgets connected clients, exactly those it finds past their deadline (`RowKeptExactly`,
  `LongConnectionIsForgotten`).
- Frames longer than `max_buffer_size + 1` can be lost by an unlucky cutting (`CuttingSafeExactly`), cluster payloads
  above 16 MiB never arrive as themselves (`SendAllExactly`), titles above 255 bytes do not survive (`NewReadsBackExactly`).
- A message id can be answered more than once exactly when it is registered more than once (`AtMostOneReplyExactly`,
  `ReusedIdCanGetBoth`).
- Adding a client with unclean titles, or under a live id that had other titles, breaks the index
  (`AddClientAgreesExactly`).

Where code and comments disagree the model follows the code:

- `fallback_excluding` is documented (crates/rex-server/src/system/forwarder/network.rs:180-184) to answer
  `NoPeerForTitle` when no peer has an address and `PeerUnreachable` when all failed; the code answers by whether a
  peer was excluded. `FailureDocumentedExactly` says when the two agree.
- The `NoPeerForTitle` branch of the title handler is documented as what happens when no peers are known
  (crates/rex-server/src/handler/title.rs:91-96); with the forwarder on the node's own route table it is never reached
  (the contract of `HandleTitle`), and having no peer to try ends in `PeerUnreachable`.
- An ACK packet is documented as 44 bytes with a 32-byte head (crates/rex-core/src/protocol/data.rs:320-321); the code
  writes 45 bytes with a 36-byte head for every id (the contract of `AckPacket`).
- The offline port documents order by timestamp (crates/rex-server/src/system/offline.rs:36); the store keeps queueing
  order and uses the timestamp for expiry only. `ServedByTimestampExactly` says when the two agree.
- crates/rex-cluster/README.md describes election, gossip and sync modules the code does not have.

## Model

| member | source | states |
|---|---|---|
| `RingTheory.LeaveDeletesFromPreferences` | crates/rex-cluster/src/hash_ring.rs:67-72 | A node's removal deletes it from every key's preference list and keeps the order of the rest; an n-node replica set loses at most that node and gains at most one. For every hash function: preference lists are defined by repeatedly taking the owner, so no collision condition is needed here |
| `RingTheory.HistoryIndependentExactly` | crates/rex-cluster/src/hash_ring.rs:47-112 | All histories of adds and removes that end in the same node set send every key to the same node **if and only if** no two different nodes of the set share a virtual-node hash |
| `RingTheory.HistoriesAgree` | crates/rex-cluster/src/hash_ring.rs:47-112 | Two histories with the same final node set agree on every key's owner and whole preference list when no two different nodes share a hash |
| `RingWalk.KeptRingsAgree` | crates/rex-cluster/src/hash_ring.rs:47-180 | Two ring objects' views, kept through any two histories with the same nodes, give the same owner and the same get_n result for every key and n when no two nodes share a hash |
| `RingWalk.EveryHistoryHasViews` | crates/rex-cluster/src/hash_ring.rs:47-72 | For every history there are three views in agreement, so none of these results is about nothing |
| `RingTheory.JoinMovesKeysOnlyToNewcomer` | crates/rex-cluster/src/hash_ring.rs:47-64 | For every hash function: a join leaves a key's owner or makes it the newcomer, and leaves it exactly when no point of the newcomer is strictly nearer |
| `RingTheory.LeaveMovesOnlyItsOwnKeys` | crates/rex-cluster/src/hash_ring.rs:67-72 | For every hash function: a removal changes no key of another node |
| `RingWalk.JoinThenLeaveRestoresViews` | crates/rex-cluster/src/hash_ring.rs:47-72 | Adding a fresh node and removing it restores ring, positions and sorted hashes exactly |
| `RingTheory.PreferenceListsNodes` | crates/rex-cluster/src/hash_ring.rs:115-159 | A preference list holds every node of the ring, each once |
| `RingTheory.PreferenceIgnoresOrder` | crates/rex-cluster/src/hash_ring.rs:85-112 | Without collisions owner and preference list depend only on the set of ring entries, not on insertion order |
| `RingWalk.CollisionFreeReplicas` | crates/rex-cluster/src/hash_ring.rs:115-159 | Without cross-node collisions what get_n returns is the beginning of the preference list, for every key and n |
| `RingWalk.ReplicasAfterLeave` | crates/rex-cluster/src/hash_ring.rs:67-159 | get_n before and after a removal: the full list loses that node and keeps its order, a shorter one loses at most that node and gains at most one; needed is only that no two nodes share the key's own hash |
| `HashRings.BinarySearch` | crates/rex-cluster/src/hash_ring.rs:85-97 | Position of an equal hash, or the insertion point; which of several equal positions is left open |
| `HashRings.StartPosition` | crates/rex-cluster/src/hash_ring.rs:85-97 | First position of the search lap: the clockwise successor with wrap-around |
| `HashRings.CollectNodes` | crates/rex-cluster/src/hash_ring.rs:115-159 | The circular walk ends within one lap for every hash function, collisions included, and returns distinct nodes, as many as asked for or as there are |
| `HashRings.HashRing.constructor` | crates/rex-cluster/src/hash_ring.rs:27-44 | The new ring is the empty history, all three views in agreement |
| `HashRings.HashRing.RebuildSorted` | crates/rex-cluster/src/hash_ring.rs:177-180 | The sorted hashes are the ring's hashes, ascending, with multiplicity |
| `HashRings.HashRing.AddNode` | crates/rex-cluster/src/hash_ring.rs:47-64 | Appends the node's virtual nodes (nothing for a known node) and keeps ring, positions and sorted hashes in agreement |
| `HashRings.HashRing.RemoveNode` | crates/rex-cluster/src/hash_ring.rs:67-72 | Takes the node out of all three views and keeps them in agreement |
| `HashRings.HashRing.GetByHash` | crates/rex-cluster/src/hash_ring.rs:85-112 | Binary search, wrap-around and position list together give the clockwise nearest entry, the earliest inserted among equals |
| `HashRings.HashRing.Get` | crates/rex-cluster/src/hash_ring.rs:75-82 | The owner of the key's hash |
| `RingTheory.BestIsSuccessor` | crates/rex-cluster/src/hash_ring.rs:85-112 | In hashes alone: the owner's point is the least from the key on, or the least of all past the last one |
| `RingTheory.BestIsEarliest` | crates/rex-cluster/src/hash_ring.rs:85-112 | ... and the earliest entry with that hash |
| `RingTheory.EntriesExactly` | crates/rex-cluster/src/hash_ring.rs:47-64 | The points are exactly the hashes of `name-0` to `name-(v-1)` of the nodes present |
| `RingTheory.VirtualKeysDiffer` | crates/rex-cluster/src/hash_ring.rs:56-56 | Different virtual nodes, of one node or two, hash different strings |
| `HashRings.HashRing.GetN` | crates/rex-cluster/src/hash_ring.rs:115-159 | At most one lap; with at least one virtual node exactly min(n, number of nodes) distinct nodes, the first being the key's owner; without ambiguity exactly the first n of the preference list |
| `RouteTheory.ImportOfExport` | crates/rex-cluster/src/route_table.rs:150-195 | Importing an exported state, listed in any order, gives back addresses and client owners, and every title's node and replica order when no two nodes share a hash |
| `RouteTables.GlobalRouteTable.AddNode` | crates/rex-cluster/src/route_table.rs:53-64 | Address map, ring and version move together; ring nodes stay exactly the addressed nodes |
| `RouteTables.GlobalRouteTable.RemoveNode` | crates/rex-cluster/src/route_table.rs:67-78 | Same for removal |
| `RouteTables.GlobalRouteTable.RegisterClient` | crates/rex-cluster/src/route_table.rs:81-85 | One owner entry and one version step |
| `RouteTables.GlobalRouteTable.UnregisterClient` | crates/rex-cluster/src/route_table.rs:88-91 | The inverse entry change and one version step |
| `RouteTables.GlobalRouteTable.GetNodeByTitle` | crates/rex-cluster/src/route_table.rs:94-97 | A title never maps to a node without an address, and maps to none only in an empty table |
| `RouteTables.GlobalRouteTable.GetNodesByTitle` | crates/rex-cluster/src/route_table.rs:120-126 | Distinct addressed nodes, min(n, number of nodes) of them |
| `RouteTables.GlobalRouteTable.ExportState` | crates/rex-cluster/src/route_table.rs:150-168 | The state lists addresses, client owners and version completely and without repetition |
| `RouteTables.GlobalRouteTable.ImportState` | crates/rex-cluster/src/route_table.rs:171-195 | Replaces all of it by what the state lists and rebuilds the ring in list order |
| `ClusterRuns.EveryPublishHasOneFate` | crates/rex-server/src/handler/title.rs:36-152 | Over every run of a cluster, whatever registries, connections and choices: each publish has exactly one fate (taken by one client, on its way, returned to the publisher, dropped) and is given to at most one client anywhere |
| `ClusterRuns.NoPublishReachesTwoClients` | crates/rex-server/src/handler/title.rs:36-152 | Two hand-overs of one publish are the same hand-over |
| `ClusterRuns.NobodyGetsOwnPublish` | crates/rex-server/src/handler/title.rs:38-46 | Over every run no node hands a publish made there to its publisher |
| `ClusterRuns.PublishReachesSubscriber` | crates/rex-server/src/handler/title.rs:38-46 | Over every run: on its own node a publish is given to another subscriber of its title **if and only if** there is one |
| `ClusterRuns.ArrivalFindsSubscriber` | crates/rex-server/src/system/forwarder/network.rs:57-130 | ... and at the node it is forwarded to, to a subscriber if and only if there is one |
| `ClusterRuns.EveryMessageInFlight` | crates/rex-server/src/system/forwarder/network.rs:240-249 | Over every run a message between nodes holds the published packet, title and publisher, names no client, is no group or broadcast message and asks for no acknowledgement |
| `ClusterRuns.EveryRunIsFaithful` | crates/rex-server/src/system/forwarder/network.rs:225-250 | Everything on its way is a unicast of a published packet under its own title; everything clients get is the published packet but for the message id |
| `ClusterRuns.ArrivalReachesSubscriber` | crates/rex-server/src/cluster/server_cluster.rs:186-225 | A forwarded message is given, byte for byte, only to a client that lists the title, and nothing is forwarded again |
| `TitleTheory.ExactlyOneOutcome` | crates/rex-server/src/handler/title.rs:36-127 | Handling a publish ends in exactly one of: one client took it, one peer's connection took it, the publisher is told NoTarget |
| `TitleTheory.GivenToOtherSubscriber` | crates/rex-server/src/handler/title.rs:26-46 | On its own node a publish is given to no one but live clients that list its title and did not publish it, and to one of them **if and only if** there is one; never to the publisher, whatever the registry |
| `TitleTheory.SentAwayOtherwise` | crates/rex-server/src/system/router.rs:67-80 | Without such a client it is forwarded to the title's node, and the frame is for the node whose connection took it; without such a node it goes back |
| `TitleTheory.TextReadsBack` | crates/rex-server/src/handler/title.rs:23-26 | A packet's title bytes and the title used for routing determine each other |
| `TitleTheory.RegisteredExactly` | crates/rex-server/src/system/services.rs:254-271 | A local hand-over with acknowledgements on adds one pending entry, for the publisher, due from now; nothing else does |
| `TitleTheory.AnswerSaysNoTarget` | crates/rex-server/src/handler/title.rs:111-127 | What comes back is the packet with command 9902 and code 8802 |
| `ForwardTheory.DeliveredMeansOneAcceptance` | crates/rex-server/src/system/forwarder/network.rs:21-55 | Delivered exactly when a peer accepted; the acceptance is the last try and the only one; no peer is tried twice |
| `ForwardTheory.FailureTriedEveryone` | crates/rex-server/src/system/forwarder/network.rs:185-219 | A failed forward has tried the target and every other connected peer with a usable address |
| `ForwardTheory.FailureReason` | crates/rex-server/src/system/forwarder/network.rs:21-56 | A failed forward says that the cluster is not started, having tried nobody, that the target has no address, or names the target |
| `ForwardTheory.TriedOnlyPeers` | crates/rex-server/src/system/forwarder/network.rs:21-56 | Besides the target only other connected peers with a usable address are tried, never the node itself; the target before all others |
| `ForwardTheory.UnicastFindsTarget` | crates/rex-server/src/system/forwarder/network.rs:57-130 | A forwarded unicast finds one client **if and only if** some client lists the title, or the client it names is live |
| `ForwardTheory.FailureDocumentedExactly` | crates/rex-server/src/system/forwarder/network.rs:180-219 | A failed forward answers as the walk's documentation says **if and only if** the target has an address exactly when there is another peer to try |
| `ForwardTheory.LoneNodeBlamesTarget` | crates/rex-server/src/system/forwarder/network.rs:215-218 | An input where it does not: no other peer, yet the addressed target is reported unreachable |
| `ForwardTheory.RefusalWithoutAddressSaysNoPeer` | crates/rex-server/src/system/forwarder/network.rs:215-218 | Another: a peer refused, yet no peer is reported because the target has no address |
| `ForwardTheory.RouteIsLocalFirst` | crates/rex-server/src/system/router.rs:67-77 | Local exactly when another live client lists the title, and then to such a client; to the ring's node only otherwise |
| `ForwardTheory.TargetsSubscribe` | crates/rex-server/src/system/forwarder/network.rs:57-130 | Whoever a forwarded message is given to is live and lists the title, or is the named client |
| `ForwardTheory.FanOutReachesEveryone` | crates/rex-server/src/system/forwarder/network.rs:74-100 | A broadcast or group message is for every subscriber, each once |
| `Forwarders.ClusterTransport.SendTo` | crates/rex-cluster/src/transport.rs:398-422 | A message is queued once or not at all, only on an open connection |
| `Forwarders.ClusterTransport.Connect` | crates/rex-cluster/src/transport.rs:242-249 | Opens a connection or changes nothing |
| `Forwarders.ClusterTransport.ConnectedNodes` | crates/rex-cluster/src/transport.rs:454-456 | Every connected node once, in no particular order |
| `Forwarders.ClusterTransport.TrySend` | crates/rex-server/src/system/forwarder/network.rs:225-287 | No call without a connection; a refused message makes it drop the connection, dial once more and, if that works, send once more; true exactly when one message was queued; no other peer's connection is touched |
| `Forwarders.NetworkForwarder.Walk` | crates/rex-server/src/system/forwarder/network.rs:185-219 | Eligible peers in snapshot order, each tried once, until the first acceptance |
| `Forwarders.NetworkForwarder.Forward` | crates/rex-server/src/system/forwarder/network.rs:21-55 | Refines the walk over target and fallback peers, with the failure value each branch gives, the transport's call log and its queue |
| `Forwarders.NetworkForwarder.Deliver` | crates/rex-server/src/system/forwarder/network.rs:57-130 | One hand-over per target; the counters are the accepted and the failed ones; no forward happens |
| `Forwarders.NetworkForwarder.OnForward` | crates/rex-server/src/cluster/server_cluster.rs:186-225 | Acknowledged exactly when asked for; success means there was a subscriber and every one took it |
| `Routers.RouteTitle` | crates/rex-server/src/system/router.rs:67-77 | The route over registry and ring; a remote plan names an addressed node, no plan means an empty cluster |
| `TitleHandlers.TitleHandler.DeliverMessage` | crates/rex-server/src/handler/title.rs:131-152 | Registers the pending acknowledgement under the packet's id, then hands over the stamped packet |
| `TitleHandlers.TitleHandler.SendAway` | crates/rex-server/src/handler/title.rs:57-104 | The forwarder gets a unicast by title that carries the packet's bytes; the transport's queue grows by one message exactly on success |
| `TitleHandlers.TitleHandler.Dispatch` | crates/rex-server/src/handler/title.rs:36-108 | The routing half of the handler against its relation |
| `TitleHandlers.TitleHandler.Answer` | crates/rex-server/src/handler/title.rs:110-124 | The packet comes back as TitleReturn with NoTarget, other fields unchanged |
| `TitleHandlers.TitleHandler.Handle` | crates/rex-server/src/handler/title.rs:17-127 | One call has the effects the relation allows: on local sends, on the transport's queue, on answers and on pending acknowledgements, the pending id being the one the packet is stamped with |
| `TitleServers.HandleTitle` | crates/rex-server/src/handler/title.rs:17-127 | The same on a node with its route table, peers queue and acknowledgements included: the owner is the ring's node for the title, which has an address; so if the forwarder reads that table, forwarding never ends in NoPeerForTitle |
| `OfflineRuns.EveryRunIsSound` | crates/rex-persistence/src/store.rs:122-311 | Over every run of queueing, logins, sweeps, removals and clears: trees consistent, every message accounted for once, hand-over in queueing order |
| `OfflineRuns.ExactlyOnePlace` | crates/rex-server/src/handler/login.rs:42-68 | Each queued message is waiting in its client's queue or has exactly one final fate; handed over exactly when its fate says so |
| `OfflineRuns.FatesAreFinal` | crates/rex-persistence/src/store.rs:122-311 | A message's fate never changes |
| `TimestampOrder.ServedByTimestampExactly` | crates/rex-server/src/system/offline.rs:36-40 | A client is served in timestamp order in all runs that queue given messages **if and only if** they are queued in timestamp order for it |
| `TimestampOrder.QueuedByTimestampIsServedSo` | crates/rex-server/src/system/offline.rs:36-40 | Then it is so in every run, whatever evictions, removals, sweeps and logins happen |
| `TimestampOrder.ReturnedByTimestamp` | crates/rex-persistence/src/store.rs:169-193 | So is what get_offline_messages returns, at any point of such a run and at any time |
| `TimestampOrder.LoginHandsAsQueued` | crates/rex-server/src/handler/login.rs:42-68 | One client's messages queued within the limit and collected at a time of at most timestamp + ttl of each come as queued, by timestamp if and only if queued so |
| `TimestampOrder.LaterStampFirst` | crates/rex-server/src/handler/login.rs:42-68 | An input against the documented order: the later stamped message queued first is handed over first |
| `OfflineRuns.DistinctIdsAreAdmissible` | crates/rex-persistence/src/store.rs:149-163 | Distinct ids and removals by the owner are all a run needs |
| `FateCauses.FateExactly` | crates/rex-persistence/src/store.rs:122-311 | Over every run a message has a fate **if and only if** some operation caused it: evicted as the oldest of a full queue by a message to the same client; handed over by a login of its own client at which it was waiting unexpired; dropped by a sweep, or by such a login that took others along, once expired; cleared by its own client's clearing or its own removal |
| `FateCauses.HandedOverAtLogin` | crates/rex-server/src/handler/login.rs:50-68 | The number in a hand-over is that of the login: one of its own client, at which it waited and was not expired |
| `FateCauses.StepBrings` | crates/rex-persistence/src/store.rs:122-311 | Each operation gives exactly the fates it is a cause of |
| `OfflineRuns.MintedRunsAreSound` | crates/rex-persistence/src/offline.rs:38-43 | Ids minted by the process, at most 65536 a second on a clock that does not go back, meet that condition |
| `OfflineLedger.StepAccounts` | crates/rex-persistence/src/store.rs:122-311 | One step keeps the account and changes no settled fate |
| `OfflineLedger.StepKeepsOrder` | crates/rex-server/src/handler/login.rs:42-68 | One step keeps handed-over followed by waiting messages a subsequence of what was queued, per client |
| `OfflineTheory.AddRefines` | crates/rex-persistence/src/store.rs:122-166 | Add is append to the bounded queue, the oldest dropped at the limit; other queues unchanged |
| `OfflineTheory.AddConsistent` | crates/rex-persistence/src/store.rs:122-166 | Add keeps index and rows in agreement **if and only if** the id is not in use once room was made |
| `OfflineTheory.EnqueueBounded` | crates/rex-persistence/src/store.rs:122-147 | The limit is never exceeded and the newcomer is last |
| `OfflineTheory.RemoveConsistent` | crates/rex-persistence/src/store.rs:202-225 | Remove keeps the agreement **if and only if** the row is absent or belongs to the named client |
| `OfflineTheory.RemoveRefines` | crates/rex-persistence/src/store.rs:202-225 | Remove deletes that message from that queue and nothing else |
| `OfflineTheory.RemoveOldestRefines` | crates/rex-persistence/src/store.rs:338-345 | Drops the head of one queue |
| `OfflineTheory.ClearRefines` | crates/rex-persistence/src/store.rs:228-253 | Empties one queue and leaves the others |
| `OfflineTheory.CleanupRefines` | crates/rex-persistence/src/store.rs:256-311 | Cleanup leaves in every queue exactly the unexpired messages, in order |
| `OfflineTheory.CleanupRows` | crates/rex-persistence/src/store.rs:256-311 | The rows left are exactly the unexpired ones |
| `OfflineTheory.CleanEachInAnyOrder` | crates/rex-persistence/src/store.rs:256-311 | In consistent trees the sweep comes to the same in every order of the clients, and its count is the rows dropped |
| `OfflineStores.PersistenceStore.AddOfflineMessage` | crates/rex-persistence/src/store.rs:122-166 | Refines Add at limit 1000 |
| `OfflineStores.PersistenceStore.RemoveOldestOffline` | crates/rex-persistence/src/store.rs:338-345 | Refines RemoveOldest |
| `OfflineStores.PersistenceStore.RemoveOfflineMessage` | crates/rex-persistence/src/store.rs:202-225 | Refines Remove |
| `OfflineStores.PersistenceStore.GetOfflineMessages` | crates/rex-persistence/src/store.rs:169-193 | The client's messages with now at most timestamp + 604800, oldest first |
| `OfflineStores.PersistenceStore.GetOfflineCount` | crates/rex-persistence/src/store.rs:196-199 | Length of the index entry, which is the queue's length in a consistent store |
| `OfflineStores.PersistenceStore.ClearOfflineMessages` | crates/rex-persistence/src/store.rs:228-253 | Refines Clear |
| `OfflineStores.PersistenceStore.CleanupExpired` | crates/rex-persistence/src/store.rs:256-311 | The sweep client by client in the index's order, for any trees; for consistent ones exactly the rows with now at most timestamp + 604800 are left, and the number of rows dropped is returned |
| `OfflineStores.PersistenceStore.CleanClientQueue` | crates/rex-persistence/src/store.rs:268-305 | One client's share of the cleanup and its count: of its index entry the rows past timestamp + 604800 go, no others |
| `MessageIds.IdsDistinctExactly` | crates/rex-persistence/src/offline.rs:38-43 | All minted ids are distinct **if and only if** no second mints more than 65536 |
| `MessageIds.BurstHasTwins` | crates/rex-persistence/src/offline.rs:38-43 | A second with more has two equal ids 65536 calls apart |
| `MessageIds.SameId` | crates/rex-persistence/src/offline.rs:38-43 | Two ids are equal exactly when second and low counter bits are |
| `MessageIds.HalvesRead` | crates/rex-persistence/src/offline.rs:38-43 | Second and low counter bits can be read off an id |
| `MessageIds.IdSource.MintEach` | crates/rex-persistence/src/offline.rs:38-43 | A run of the object: one id per clock reading, with a counter wrapping at 64 bits; on a clock that does not go back they are distinct **if and only if** no second mints more than 65536 |
| `SessionTheory.EveryRunStaysTied` | crates/rex-server/src/lib.rs:49-81 | From restart onward, whatever the titles, every reachable state keeps live ids and ghost ids disjoint and every ghost registered and backed by a row with its titles and deadline |
| `SessionTheory.EveryRunKeepsInv` | crates/rex-server/src/lib.rs:49-81 | If the titles are clean as well and no registered connection takes another id, the title index agrees with the lists too |
| `ConnectionRuns.EveryRunStaysTied` | crates/rex-server/src/handler/login.rs:23-47 | The first of these over every run with connections explicit, second logins on one connection included |
| `ConnectionRuns.EveryRunKeepsInvExactly` | crates/rex-server/src/handler/login.rs:23-47 | Over every run of opened, logged-in (once or again), closed and swept connections whose steps are of the kind below, the whole invariant holds **if and only if** no id that a connection has given up still lists a title |
| `ConnectionRuns.OneIdRunsKeepInv` | crates/rex-server/src/handler/login.rs:42-47 | So it holds in every run in which no registered connection logs in as a new client |
| `ConnectionRuns.StepGivesUpExactly` | crates/rex-server/src/handler/login.rs:42-47 | An operation leaves every live id with an object that has it **if and only if** it is not such a second login |
| `ConnectionRuns.StepSoundExactly` | crates/rex-server/src/system/client_registry.rs:155-210 | Each operation keeps index and lists in agreement object by object **if and only if** a stated condition on the id and title it names holds |
| `ConnectionRuns.StrandedClient` | crates/rex-server/src/transport/tcp.rs:95-104 | Login as one id, login as another, close, after any run: the first id stays live with title, row and registration, and no index entry names it |
| `SessionTheory.SweepLeavesNothingExpired` | crates/rex-server/src/system/janitor.rs:48-59 | Right after a sweep no ghost or row is past its deadline; expired clients' queues are empty and the others' unchanged |
| `SessionRuns.RowKeptExactly` | crates/rex-server/src/system/janitor.rs:48-59 | In every run: a client connected since some addition has its row, with its titles and the deadline now + ttl capped at 2^64 - 1, and its cluster registration **if and only if** no sweep since then came after that deadline |
| `SessionRuns.RowStandsExactly` | crates/rex-server/src/system/services.rs:159-195 | The same through inactivity and restarts: what the last addition persisted is there, titles and deadline included, **if and only if** the client was not removed while live and no sweep came after the deadline |
| `SessionRuns.RemoveTakesBack` | crates/rex-server/src/system/services.rs:182-195 | Removing a live client takes it out of registry, index, rows and cluster and touches nothing of any other client |
| `SessionRuns.RemovedIsGone` | crates/rex-server/src/system/services.rs:182-195 | From restart onward a client removed while live is nowhere, also after further restarts, until it is added again |
| `SessionRuns.RestoredRowExactly` | crates/rex-server/src/lib.rs:49-81 | A client that never came back keeps its restored row **if and only if** no sweep came after its deadline |
| `SessionRuns.RegisteredExactlyWithRow` | crates/rex-server/src/system/services.rs:159-195 | From restart onward the clients registered in the cluster are exactly those with a row |
| `SessionRuns.GhostsExactly` | crates/rex-server/src/lib.rs:49-81 | From restart onward the ghosts are exactly the clients with a row that were not added since the last restart |
| `SessionRuns.SubscribedAfter` | crates/rex-server/src/system/client_registry.rs:155-229 | Who is found under which title after each operation |
| `SessionRuns.EveryConnectedClient` | crates/rex-server/src/system/services.rs:159-195 | From restart onward every connected client is one of those: it was added by some operation and connected since, so the condition is exact for all of them |
| `SessionRuns.LongConnectionIsForgotten` | crates/rex-server/src/system/janitor.rs:48-59 | A client that connects and stays, and a sweep one second after its deadline: it is live, without row and registration |
| `JointRuns.ClearedExactly` | crates/rex-server/src/system/janitor.rs:48-59 | Over every run of logins, queueing, sweeps and restarts together: a message ends up Cleared **if and only if** some sweep found it waiting for a client whose row had expired |
| `JointRuns.LoginHandsOver` | crates/rex-server/src/handler/login.rs:47-68 | In every such run a login hands over what waits for that client with now at most timestamp + ttl, and leaves its queue empty if there was any |
| `JointRuns.JointRunsAreSound` | crates/rex-server/src/handler/login.rs:42-68 | In every such run live ids, ghosts, rows and registrations stay tied together and the offline ledger sound, over the same trees; with clean titles and connections that keep their id the index agrees as well |
| `MintedRuns.MintedRunsExactly` | crates/rex-persistence/src/offline.rs:38-43 | With ids from the process's counter, which restarts at 0: a joint run with restarts meets the freshness the other results rely on **if and only if** no two messages of one second got counters that agree in 16 bits |
| `MintedRuns.QuietRestartsAreSound` | crates/rex-persistence/src/offline.rs:38-43 | It does if no second has messages both before and after a restart and none has more than 65536; then the run is sound |
| `MintedRuns.RestartRepeatsAnId` | crates/rex-persistence/src/offline.rs:38-43 | The first messages of two processes, queued in one second, get the same id, so such a run never meets it |
| `MintedRuns.AdmissibleExactly` | crates/rex-persistence/src/offline.rs:38-43 | Freshness over a joint run is exactly that no two queueing operations carry one id |
| `JointRuns.SweepTogether` | crates/rex-server/src/system/janitor.rs:48-59 | Clearing the expired clients' queues one by one, in any order, is the sweep's account of the store |
| `SessionTheory.StepTied` | crates/rex-server/src/system/services.rs:159-195 | Each operation keeps the parts tied together, whatever the titles |
| `SessionTheory.StepAgrees` | crates/rex-server/src/system/client_registry.rs:155-210 | Each operation with clean titles keeps the index in agreement |
| `SessionTheory.RestartInv` | crates/rex-server/src/lib.rs:49-81 | The restored state has it |
| `ServiceObjects.Services.constructor` | crates/rex-server/src/lib.rs:49-81 | A server started over persisted rows is in the restored state |
| `ServiceObjects.Services.RestoreGhosts` | crates/rex-server/src/lib.rs:49-81 | One ghost and one cluster registration per row |
| `ServiceObjects.Services.AddClient` | crates/rex-server/src/system/services.rs:159-177 | Refines the session step for every client and keeps the invariant **if and only if** the registry stays valid |
| `ServiceObjects.Services.RemoveClient` | crates/rex-server/src/system/services.rs:182-195 | Refines the session step, of which RemoveTakesBack says what it does, and keeps the invariant |
| `ServiceObjects.Services.CleanupExpiredGhosts` | crates/rex-server/src/system/janitor.rs:48-59 | Refines the ghost sweep, whatever order the expired ids come in |
| `ServiceObjects.Services.CleanupInactiveClients` | crates/rex-server/src/system/janitor.rs:65-84 | Takes exactly the clients silent for longer than the timeout out of the registry, and only out of it |
| `ServiceObjects.Services.DrainOffline` | crates/rex-server/src/handler/login.rs:47-68 | Hands over the queue's messages with now at most timestamp + 604800, in order, one packet per message, and clears it if it handed anything over |
| `HandOver.PacketForReads` | crates/rex-server/src/handler/login.rs:56-59 | The packet built for a message carries its id, title and payload and the client as source |
| `HandOver.SendEach` | crates/rex-server/src/handler/login.rs:56-66 | One such packet per message, in order |
| `ServiceObjects.ClientStateRepo.Save` | crates/rex-persistence/src/client_state_repo.rs:24-34 | One row written |
| `ServiceObjects.ClientStateRepo.Remove` | crates/rex-persistence/src/client_state_repo.rs:54-63 | One row removed |
| `ServiceObjects.ClientStateRepo.LoadAll` | crates/rex-persistence/src/client_state_repo.rs:65-78 | Every row once |
| `ServiceObjects.ClientStateRepo.TakeExpiredGhosts` | crates/rex-persistence/src/client_state_repo.rs:100-134 | Returns and removes exactly the expired rows |
| `RegistryTheory.EveryRunAgrees` | crates/rex-server/src/system/client_registry.rs:155-229 | Over every run with clean titles in which a client keeps its id, the title index agrees with the clients' own lists, without empty or repeating entries |
| `RegistryTheory.RegisterTitleAgreesExactly` | crates/rex-server/src/system/client_registry.rs:183-194 | register_title keeps the agreement **if and only if** the title is nonempty and holds no `;` (or the client is not live) |
| `RegistryTheory.RepeatedLoginAgreesExactly` | crates/rex-server/src/handler/login.rs:23-26 | The repeated-login branch, which edits the list behind the index, keeps the agreement **if and only if** it adds nothing new |
| `ConnectionTheory.SecondLoginAgreesExactly` | crates/rex-server/src/handler/login.rs:42-47 | A connection registered as one id logs in as another that is not live: what callers see agrees **if and only if** the connection then lists no title |
| `ConnectionTheory.SecondLoginMovesTheIndex` | crates/rex-server/src/handler/login.rs:42-47 | After it both ids are live with one list; the new one is indexed under all of it, the old one under nothing |
| `ConnectionTheory.SecondLoginStrandsAClient` | crates/rex-server/src/transport/tcp.rs:95-104 | After the connection closes the old id is live, lists its title and is in no index entry |
| `ConnectionTheory.AgreesByIdExactly` | crates/rex-server/src/system/client_registry.rs:155-229 | Of a registry in agreement object by object: ids and lists agree **if and only if** no given-up id lists a title |
| `ConnectionTheory.IndexedById` | crates/rex-server/src/system/client_registry.rs:155-229 | An id is indexed under a title exactly when it is live, its object still has it, and lists the title |
| `ConnectionTheory.FirstLoginSound` | crates/rex-server/src/handler/login.rs:42-47 | Setting the id, inserting the titles and adding the object keeps the agreement object by object, also when the object is registered already |
| `ConnectionTheory.RepeatedLoginSoundExactly` | crates/rex-server/src/handler/login.rs:23-26 | A login under a live id keeps it **if and only if** its object is not indexed or has all the titles |
| `ConnectionTheory.RegisterSoundExactly` | crates/rex-server/src/system/client_registry.rs:183-194 | register_title keeps it **if and only if** the title is clean and, under a given-up id, the object has a registered id and did not list the title |
| `ConnectionTheory.UnregisterSoundExactly` | crates/rex-server/src/system/client_registry.rs:196-210 | unregister_title keeps it **if and only if** the id is not a given-up one of an object indexed under the title |
| `ConnectionTheory.RemoveSound` | crates/rex-server/src/system/client_registry.rs:167-181 | remove_client keeps it; under a given-up id it leaves the index alone |
| `ConnectionTheory.CloseForgets` | crates/rex-server/src/transport/tcp.rs:103-104 | A closed connection's object is in no index entry and its id is not live |
| `RegistryTheory.AddClientAgreesExactly` | crates/rex-server/src/system/client_registry.rs:155-165 | Adding a client keeps the agreement **if and only if** its titles are clean and, for a live id, include all it was listed under |
| `RegistryTheory.RemoveClientAgrees` | crates/rex-server/src/system/client_registry.rs:167-181 | Removing keeps it |
| `RegistryTheory.UnregisterTitleAgrees` | crates/rex-server/src/system/client_registry.rs:196-210 | Unregistering keeps it |
| `RegistryTheory.JoinOfSplit` | crates/rex-core/src/client.rs:147-157 | Splitting a title string loses nothing: joined with `;` the pieces are the string, and none holds a `;` |
| `RegistryTheory.InsertTitleExactly` | crates/rex-core/src/client.rs:147-157 | A title is listed after an insertion **if and only if** it was before or is a nonempty stretch of the string between neighbouring `;` or ends, by positions |
| `RegistryTheory.InsertAllGrows` | crates/rex-core/src/client.rs:147-157 | Insertion appends and makes no repetition |
| `RegistryTheory.RegisterTitleEffect` | crates/rex-server/src/system/client_registry.rs:183-194 | After registering a clean title the client is found under it too, and nothing else changes |
| `RegistryTheory.UnregisterTitleEffect` | crates/rex-server/src/system/client_registry.rs:196-210 | After unregistering it is not, and nothing else changes |
| `RegistryTheory.FindAllByTitleExact` | crates/rex-server/src/system/client_registry.rs:219-229 | Exactly the live clients listing the title, minus the excluded one, each once |
| `RegistryTheory.TitleCountsAgree` | crates/rex-server/src/system/mod_adapters.rs:34-42 | The index's title count is the number of distinct titles on the clients' lists |
| `RegistryObjects.ClientRegistry.AddClient` | crates/rex-server/src/system/client_registry.rs:155-165 | Refines the step on client objects and index; the registry stays valid **if and only if** the titles are clean and the index holds no other object with that id |
| `RegistryObjects.ClientRegistry.RemoveClient` | crates/rex-server/src/system/client_registry.rs:167-181 | Refines the step; returns the client that was live |
| `RegistryObjects.ClientRegistry.RegisterTitle` | crates/rex-server/src/system/client_registry.rs:183-194 | Refines the step; still valid exactly when the title is clean |
| `RegistryObjects.ClientRegistry.UnregisterTitle` | crates/rex-server/src/system/client_registry.rs:196-210 | Refines the step |
| `RegistryObjects.ClientRegistry.FindAllByTitle` | crates/rex-server/src/system/client_registry.rs:219-229 | The exact subscriber list |
| `RegistryObjects.ClientRegistry.TakeInactive` | crates/rex-server/src/system/client_registry.rs:246-254 | Exactly the live clients silent for longer than the timeout, each once |
| `RegistryObjects.ClientRegistry.TitleCount` | crates/rex-server/src/system/client_registry.rs:277-279 | The number of distinct titles on clients' lists |
| `RegistryObjects.ClientRegistry.TitleCountFromSnapshots` | crates/rex-server/src/system/mod_adapters.rs:34-42 | The same number, by nested loops over snapshots |
| `RegistryObjects.ClientRegistry.AddGhost` | crates/rex-server/src/system/client_registry.rs:293-307 | Refused for a live or known id, otherwise one ghost more |
| `RegistryObjects.ClientRegistry.RemoveGhost` | crates/rex-server/src/system/client_registry.rs:309-315 | One ghost less; says whether it was there |
| `ClientRegistries.RexClient.InsertTitle` | crates/rex-core/src/client.rs:147-157 | Splits on `;` and appends the nonempty pieces not yet listed |
| `ClientRegistries.RexClient.RemoveTitle` | crates/rex-core/src/client.rs:160-163 | Deletes every occurrence |
| `PacketTheory.PacketRoundTrip` | crates/rex-core/src/protocol/data.rs:74-306 | A packet made by new and edited by any setters deserialises from any longer buffer to itself, consuming exactly its bytes, with exactly the edited fields changed |
| `PacketTheory.PacketIsItsWire` | crates/rex-core/src/protocol/data.rs:5-130 | A packet is byte for byte length, command, code, message id, source, title length, title and data, the numbers little-endian in 4, 4, 4, 8 and 16 bytes |
| `PacketTheory.CommandNumbers` | crates/rex-core/src/protocol/types.rs:6-50 | Commands are the codes 9901 to 9916 in order; every other code reads as a login |
| `Bytes.LEAt` | crates/rex-core/src/protocol/data.rs:385-400 | Little-endian: byte i has weight 256^i |
| `Bytes.BEAt` | crates/rex-cluster/src/transport.rs:398-413 | Big-endian: the last byte has weight 1 |
| `PacketTheory.EveryEditRun` | crates/rex-core/src/protocol/data.rs:182-306 | Any sequence of edits keeps the length field right and changes only what it names |
| `PacketTheory.NewReadsBackExactly` | crates/rex-core/src/protocol/data.rs:100-152 | new gives a packet with that title **if and only if** the title has at most 255 bytes and the whole fits 32 bits |
| `PacketTheory.NewReadsBack` | crates/rex-core/src/protocol/data.rs:100-152 | All fields of a new packet |
| `PacketTheory.SetDataExactly` | crates/rex-core/src/protocol/data.rs:272-306 | set_data leaves a packet **if and only if** the new length fits 32 bits |
| `PacketTheory.SetDataEffect` | crates/rex-core/src/protocol/data.rs:272-306 | It then changes the data alone |
| `PacketTheory.DeserializeFromLonger` | crates/rex-core/src/protocol/data.rs:74-96 | A packet at the front of a buffer is split off exactly |
| `PacketTheory.AckRoundTrip` | crates/rex-core/src/protocol/data.rs:334-402 | An ACK packet is a packet and gives its message id back |
| `PacketTheory.CodesRoundTrip` | crates/rex-core/src/protocol/types.rs:6-94 | Command and return codes survive the wire |
| `Packets.RexData.constructor` | crates/rex-core/src/protocol/data.rs:100-152 | The object holds such a packet |
| `Packets.RexData.SetCommand` | crates/rex-core/src/protocol/data.rs:255-258 | Only the command changes |
| `Packets.RexData.SetRetCode` | crates/rex-core/src/protocol/data.rs:267-270 | Only the return code changes |
| `Packets.RexData.SetMessageId` | crates/rex-core/src/protocol/data.rs:182-185 | Only the message id changes |
| `Packets.RexData.SetSource` | crates/rex-core/src/protocol/data.rs:261-264 | Only the source changes |
| `Packets.RexData.SetData` | crates/rex-core/src/protocol/data.rs:272-306 | Grow or shrink, copy, refresh the length: the data alone changes, when it fits |
| `StreamTheory.EveryCuttingDispatchesFrames` | crates/rex-server/src/transport/base.rs:81-138 | Any cutting of any stream of frames is dispatched as exactly those frames in order, never clears the buffer and leaves the unfinished frame; it holds up to one byte above the limit |
| `StreamTheory.EveryCuttingDispatchesPackets` | crates/rex-core/src/protocol/data.rs:74-96 | Any cutting of any stream of packets dispatches exactly those packets |
| `StreamTheory.CuttingSafeExactly` | crates/rex-server/src/transport/base.rs:81-138 | All cuttings of a stream are safe **if and only if** every frame is at most max_buffer_size + 1 bytes |
| `StreamTheory.LongFrameIsLost` | crates/rex-server/src/transport/base.rs:81-138 | A longer frame has a cutting after which the frames before it are dispatched and its own bytes are thrown away |
| `StreamTheory.ShortLengthStops` | crates/rex-server/src/transport/base.rs:81-138 | A length field below 37 stops the parser behind the frames before it |
| `StreamTheory.ParseMore` | crates/rex-server/src/transport/base.rs:81-138 | Parsing is additive over the byte stream |
| `Streams.ConnectionDriver.ParseAndHandleBuffer` | crates/rex-server/src/transport/base.rs:81-138 | The parse loop, its stop on a bad length and its clear of a long leftover |
| `Streams.ConnectionDriver.OnRead` | crates/rex-server/src/transport/driver.rs:84-115 | One chunk's effect on the connection |
| `Streams.Drive` | crates/rex-server/src/transport/driver.rs:84-115 | The read loop over a whole connection |
| `ClusterFrameTheory.CuttingDoesNotMatter` | crates/rex-cluster/src/transport.rs:166-190 | For every byte stream, oversize headers included, payloads and leftover do not depend on the cutting |
| `ClusterFrameTheory.ReadMore` | crates/rex-cluster/src/transport.rs:340-363 | Reading is additive over the byte stream |
| `ClusterFrameTheory.SentIsReceived` | crates/rex-cluster/src/transport.rs:398-413 | Any sequence of payloads up to 16 MiB comes back unchanged and in order |
| `ClusterFrameTheory.SentIsReceivedInChunks` | crates/rex-cluster/src/transport.rs:340-413 | The same through any cutting |
| `ClusterFrameTheory.SendExactly` | crates/rex-cluster/src/transport.rs:398-413 | One payload arrives as itself **if and only if** it is at most 16 MiB; the sender does not check |
| `ClusterFrameTheory.SendAllExactly` | crates/rex-cluster/src/transport.rs:398-413 | A sequence of payloads arrives as itself **if and only if** each is at most 16 MiB |
| `ClusterFrameTheory.OversizeHeaderSkipped` | crates/rex-cluster/src/transport.rs:340-363 | A header that announces more than 16 MiB is skipped, and only the header |
| `ClusterFrames.FrameReader.OnRead` | crates/rex-cluster/src/transport.rs:340-363 | The frame loop, which always ends |
| `ClusterFrames.BuildFrame` | crates/rex-cluster/src/transport.rs:405-412 | The frame read back in front of any bytes |
| `ClusterFrames.Receive` | crates/rex-cluster/src/transport.rs:166-190 | A whole connection chunk by chunk reads the whole stream |
| `AckTheory.RepliesNeverOutnumberRegistrations` | crates/rex-server/src/system/ack.rs:72-105 | Over every run: replies sent for a message id, plus the one still waiting, never outnumber its registrations |
| `AckTheory.SingleUseIdAnsweredOnce` | crates/rex-server/src/handler/ack.rs:25-61 | An id registered once gets at most one reply, however many receivers acknowledge; never success and timeout |
| `AckTheory.AtMostOneReplyExactly` | crates/rex-server/src/system/services.rs:254-271 | An id is answered at most once in all runs that register it n times **if and only if** n is at most one |
| `AckTheory.RepliesBoundedExactly` | crates/rex-server/src/system/ack.rs:72-105 | The bound by registrations is tight: at most k replies in all runs with n registrations **if and only if** n <= k |
| `AckTheory.ReusedIdCanGetBoth` | crates/rex-server/src/system/services.rs:254-271 | One such run: an id registered twice gets a success and a timeout |
| `AckHistory.EveryRegistrationHasOneFate` | crates/rex-server/src/system/ack.rs:72-105 | Over every run each registration has exactly one fate: it waits, a reply of its own answers it, a later registration of the same id replaced it, or a later acknowledgement or sweep of that id found its publisher not connected |
| `AckHistory.RepliesAnswerDistinctRegistrations` | crates/rex-server/src/system/janitor.rs:89-109 | Each reply answers a registration of its own, goes to the client that made it, and a timeout comes only after strictly more than the timeout |
| `AckHistory.DisabledIsSilent` | crates/rex-server/src/system/services.rs:198-211 | With acknowledgements off nothing is registered or sent |
| `AckTheory.SweepTakesExactlyOverdue` | crates/rex-server/src/system/ack.rs:90-105 | A sweep leaves exactly the entries with now at most timestamp + timeout, unchanged |
| `AckTrackers.CollectExpired` | crates/rex-server/src/system/ack.rs:91-96 | The overdue ids, each once |
| `AckTrackers.AckTracker.Register` | crates/rex-server/src/system/ack.rs:72-80 | One entry, replacing an earlier one |
| `AckTrackers.AckTracker.Take` | crates/rex-server/src/system/ack.rs:82-84 | Removes and returns the entry |
| `AckTrackers.AckTracker.TakeExpired` | crates/rex-server/src/system/ack.rs:90-105 | Removes exactly the overdue entries and returns each with its publisher |
| `AckServices.AckService.RegisterPendingAck` | crates/rex-server/src/system/services.rs:198-211 | Refines the protocol step |
| `AckServices.AckService.SetupMessageAck` | crates/rex-server/src/system/services.rs:254-271 | Stamps a packet that has no id, keeps one it has, and registers that id |
| `AckServices.AckService.HandleAck` | crates/rex-server/src/handler/ack.rs:19-61 | Refines the protocol step down to the reply: one more packet exactly for a pending id of a connected publisher, and its fields are 9916, 0, 0, the publisher, no title, the id in 8 bytes; panics exactly on a packet too short for an id while acknowledgements are on, and then changes nothing |
| `AckServices.AckService.CleanupExpiredAcks` | crates/rex-server/src/system/janitor.rs:89-109 | Refines the sweep down to the packets: each new one has the fields 9916, 8803, 0, the publisher, no title, the overdue id in 8 bytes |
| `AckWire.TimeoutReads` | crates/rex-server/src/system/janitor.rs:100-103 | The timeout packet reads back as a timeout for that id |
| `RoundRobin.GroupSendsAreFair` | crates/rex-server/src/handler/group.rs:34-59 | Any k consecutive sends to n subscribers before the counter wraps pick each floor(k/n) or ceil(k/n) times |
| `RoundRobin.LapHitsEachOnce` | crates/rex-server/src/handler/group.rs:55-59 | Any n consecutive turns hit each subscriber once |
| `RoundRobin.GroupCounter.PickEach` | crates/rex-server/src/handler/group.rs:34-59 | k picks of the object over n unchanged subscribers count each of them floor(k/n) or ceil(k/n) times before the counter wraps |

## Left out

- TCP, QUIC and WebSocket sockets, TLS, tokio tasks and select loops: only chunk arrival and send outcomes remain.
- sled and bincode: the trees are reliable maps and the encoding is lossless; storage errors and flushing are not modelled.
- Metrics, tracing, the admin server, health checks, configuration, the CLI, the client library and the Java and Python bindings.
- Heartbeats, Join, NodeList and TitleRegister traffic between nodes; `announce_ack` and `broadcast`, whose messages no forwarded publish asks for.
- The cast handler and the rest of the group and login handlers: they would add easy members only.
- Races between single map operations inside one public operation.
- A ring restored by deserialisation, whose sorted hashes are empty until the next rebuild.
- Client reconnect loops.
- `set_id` on client objects in place: the classes of `Registry`, `RegistryObject` and `Services` fix an object's id, so what they prove is for connections that keep theirs. `Connections` and `ConnectionRuns` model the change of id on values, with the objects and their sharing explicit.
- RegistryTheory.EveryRunAgrees: runs in which a client keeps its id, because registries keyed by id cannot tell two ids of one object; ConnectionRuns.EveryRunKeepsInvExactly has the others.
- SessionTheory.EveryRunKeepsInv: likewise for the index; what SessionTheory.EveryRunStaysTied states needs no such condition.
- JointRuns.JointRunsAreSound: likewise for the index; its other clauses need no such condition, a second login being an addition as far as rows, ghosts, registrations and messages go.
- Rex frames with a length below 37 stop the parser in the model, as the debug assertion does; what a release build reads from them is not modelled.
- RouteTables.GlobalRouteTable.AddNode: the version is unbounded; a wrap at 64 bits is not modelled.
- HashRings.BinarySearch: which of several equal hashes is found is left open, as the library leaves it.
- `remove_offline_message` and `cleanup_expired` in joint runs: the server does not call them; the runs of the store alone have them.
