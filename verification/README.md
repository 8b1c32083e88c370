# Verification of Mini Dynamo

Mini Dynamo is a leaderless replicated key-value store: a consistent-hash ring
decides the owners of a key, vector clocks order versions, a coordinator writes
and reads by quorum, SWIM gossip tracks membership, and a Spring gateway keeps
its own copy of the ring. This project models the core of it in Dafny and proves
what the design promises; where the code gives less, it proves exactly when the
promise holds and shows a run where it does not.

`dafny verify dfyconfig.toml` checks the whole project.

## What is modelled

| file | part of the system |
|---|---|
| `Membership.dfy`, `Dissemination.dfy` | SWIM views, the order every operation moves them up, the cluster whose gossip dies out |
| `Sync.dfy`, `Swim.dfy` | push-pull membership sync, the digest, the SWIM object |
| `Gossip.dfy`, `Addresses.dfy`, `GossipThread.dfy`, `Probes.dfy` | ring and membership together, addresses, sync and join over the text protocol, probe rotation and sync spacing |
| `Ring.dfy`, `Router.dfy`, `RingRouter.dfy` | preference lists, the C++ router, the Java gateway's ring |
| `Register.dfy`, `Coordinator.dfy`, `Replica.dfy` | the quorum register over whole runs, reads, repairs and write acks, the replica rule |
| `Clocks.dfy`, `Versions.dfy`, `Base64.dfy`, `Events.dfy`, `Text.dfy` | vector clocks and the text forms |
| `Merkle.dfy`, `Pool.dfy` | the Merkle tree, the connection pool |
| `Orders.dfy`, `Bits.dfy` | sorting orders, powers of two and exclusive or |

Objects the system updates in place are classes (`Swim`, `GossipThread`,
`Router`, `RingRouter`, `VectorClock`, `Storage`, `MerkleTree`,
`ConnectionPool`, `World`, `Prober`), each method proved against a function on
values; the results over runs are about those functions, and the methods also
state their new fields outright. Hash functions, clock readings, liveness,
connect and round-trip outcomes, and the order in which threads and messages are
scheduled are parameters or arbitrary runs. Each mutex-guarded section is one
atomic step.

## Where the code gives less than its comments, or two parts differ

- A replica keeps what is newer at each single step, but not over two:
  `Replica.TwoStepsCanRegress` goes backwards through a concurrent version, and
  `Replica.OrderInsensitiveExactly` says for which versions it cannot happen.
- The coordinator's local repair bypasses the replica rule.
  `Register.UnguardedRepairRegressesIff` gives the exact guard, and
  `Register.UnguardedRunLosesAWrite` a run in which its absence loses a write.
- The entry bumped for a write is said to survive pruning always; it does only if
  fewer than k stamps are preferred to it (`Clocks.BumpSurvives`), which clock skew
  can break (`Clocks.SkewedStampLosesTheBump`).
- A write without a context, and a delete, are said to dominate the version they
  replace; that holds only if the context has seen everything in the local copy but
  the coordinator's own writes (`Clocks.BumpDominatesLocalIff`), and otherwise a
  concurrent version is replaced (`Clocks.BlindWriteIsConcurrent`).
- Acks are meant to count distinct replicas; two dead owners draw the same stand-in,
  and then they need not (`Coordinator.HonestAcksIff`).
- A sync is meant to make both sides agree; it does not when one holds the other
  alive above its own incarnation (`Sync.SyncConvergesIff`), and then no number of
  syncs does (`Sync.OverhangForever`). A direct join of a node the seed remembers
  brings it about (`GossipThreads.JoinOverhangsIff`).
- A tombstone arrives on a replica as a live empty value, and as one in a read
  reply, because neither wire form has a flag (`Versions.WireKeepsLiveVersionsOnly`).
  `Coordinator.DeletedReadIff` says when a read still reports a deletion. The repair
  and register results are stated where versions carry the flag.
- A value that encodes to the word NOTFOUND is read from a replica as missing
  (`Versions.ReplyReadIff`), and so by a node without a copy
  (`Coordinator.MissingReadIff`).
- The retry of a failed exchange is meant to use a fresh connection; it does only if
  at most one was idle (`Pools.RetryIsFreshIff`).
- `findOwners` need not terminate when a node has lost all its positions
  (`Routers.WalkEndsIff`, reached in `Routers.CrowdedOutNeverEnds`).
- A matching digest also erases the sync cooldown: three ticks later the next sync
  can start (`Probes.MatchForgetsCooldown`), two if the peer answers twice on a tick
  (`Probes.TwoTicksAttained`), never sooner (`Probes.SyncsAlwaysApart`).
- Differences in two leaves of a Merkle tree can cancel (`Merkle.DifferencesCancel`):
  a leaf is reported exactly when every node above it differs too
  (`Merkle.MerkleTree.Diff`).
- The router keeps the first address it saw for an id; the member table takes the
  newest. No comment promises that owners are handed out at the newest address, and
  they are not (`Addresses.StaleAddress`); `Addresses.StepAgreesIff` and
  `Addresses.FirstAddressIff` say exactly when the two agree.

## Model

| member | source | states |
|---|---|---|
| `Membership.ApplyUp` | src/gossip/swim.cpp:49-406 | Every operation moves the view up: each entry in the order (left, incarnation, Alive < Suspect < Dead), its own incarnation and retirement likewise |
| `Membership.RunUp` | src/gossip/swim.cpp:49-509 | Over any run of operations every earlier view is below every later one |
| `Membership.AcceptSettles` | src/gossip/swim.cpp:49-215 | An event that is accepted was not settled before and is settled after |
| `Membership.SettledRejects` | src/gossip/swim.cpp:49-215 | A settled event changes nothing |
| `Membership.SettledUp` | src/gossip/swim.cpp:49-215 | Settled events stay settled as the view moves up |
| `Membership.AcceptedOnce` | src/gossip/gossip_thread.cpp:468-481 | In any run, a node that has accepted an event rejects every later copy of it |
| `Membership.PassedOnIff` | src/gossip/gossip_thread.cpp:468-481 | A received event is queued to be passed on, last and with a full budget, if and only if it moved the view; otherwise nothing changes |
| `Membership.LimitIsCeiling` | src/gossip/swim.cpp:42-47 | The piggyback budget is three times the logarithm of the member count plus two, rounded up, and so at least three |
| `Dissemination.SpentWeight` | src/gossip/swim.cpp:375-388 | Each queued event pays exactly one of its remaining sends for each message it rides on |
| `Dissemination.ReceiveBounds` | src/gossip/gossip_thread.cpp:468-481 | Taking an event in queues at most two events, each with a bounded budget, and only if it was news |
| `Dissemination.StepLowers` | src/gossip/swim.cpp:375-393 | Every send, arrival and loss strictly lowers the potential over (node, event) pairs not yet settled, remaining budgets and messages in flight |
| `Dissemination.UniverseWithin` | src/gossip/swim.cpp:65-83 | The events queued or in flight, with their refutations, are closed under everything the cluster can do |
| `Dissemination.SilentIffStuck` | src/gossip/swim.cpp:375-393 | Nothing can happen exactly when every queue and the network are empty |
| `Dissemination.GossipDiesOut` | src/gossip/swim.cpp:375-393 | Without outside news, every run of sends, arrivals, reorderings and losses is no longer than a bound computed from the starting cluster |
| `Swims.Swim.constructor` | src/gossip/swim.cpp:39-40 | A new node is alive at incarnation 0, knows nobody and has nothing queued |
| `Swims.Swim.EnqueueEvent` | src/gossip/swim.cpp:390-393 | Appends the event with the current piggyback budget |
| `Swims.Swim.ApplySelf` | src/gossip/swim.cpp:52-85 | A departure of self is obeyed once; a live suspicion or death is refuted above it and the refutation queued |
| `Swims.Swim.ApplyRelayed` | src/gossip/swim.cpp:49-215 | The switch over event types does to the object what the declarative acceptance rule does to the value |
| `Swims.Swim.ApplyAlive` | src/gossip/swim.cpp:90-132 | News of life needs a strictly newer incarnation and never revives a departed node |
| `Swims.Swim.ApplySuspect` | src/gossip/swim.cpp:134-148 | A suspicion needs a known, live entry it outranks |
| `Swims.Swim.ApplyDead` | src/gossip/swim.cpp:150-174 | A death is filed for an unknown node, and otherwise only against a live entry at no newer incarnation |
| `Swims.Swim.ApplyLeave` | src/gossip/swim.cpp:176-210 | A departure wins over everything and is filed even for an unknown node |
| `Swims.Swim.ApplyDirectJoin` | src/gossip/swim.cpp:217-258 | Revives anything but a departed node above what was held, and returns the incarnation to announce |
| `Swims.Swim.Leave` | src/gossip/swim.cpp:260-290 | The exact new fields: self is marked retired, or a known member not yet departed has its entry set to Left and no other touched; exactly one Leave at that incarnation is queued and one notice with its address fired; anything else changes nothing |
| `Swims.Swim.MarkSuspect` | src/gossip/swim.cpp:297-310 | An Alive member becomes Suspect as of now at its incarnation and that is queued; nothing else changes |
| `Swims.Swim.MarkDead` | src/gossip/swim.cpp:312-329 | A live member becomes Dead at its incarnation, is queued and reported; Dead and Left stay |
| `Swims.Swim.ExpireSuspects` | src/gossip/swim.cpp:486-509 | A member becomes Dead if and only if it is Suspect and at least the timeout has passed since; every other entry stays, and the reports are exactly those deaths, each queued once |
| `Swims.Swim.GetEventsToSend` | src/gossip/swim.cpp:375-388 | Every queued event goes out in order; what stays queued is each entry with sends to spare, one fewer, as often as it was queued |
| `Swims.Swim.SpendQueue` | src/gossip/swim.cpp:375-388 | The erasing loop sends every queued event once and drops exactly those whose budget is spent |
| `Swims.Swim.RefuteSelf` | src/gossip/swim.cpp:395-406 | Raises the own incarnation by one and queues the announcement |
| `Swims.Swim.PeersIn` | src/gossip/swim.cpp:331-360 | Exactly the members in the wanted states, in id order |
| `Swims.Swim.Digest` | src/gossip/swim.cpp:425-447 | The XOR loop computes the digest of the abstract view, whichever order the table is in |
| `Swims.Swim.GetFullState` | src/gossip/swim.cpp:449-484 | Self first, then one event for every member |
| `Sync.FullStateSays` | src/gossip/swim.cpp:449-484 | Full state says exactly one thing about every node known, with its host, port and incarnation: departed, dead, or alive, a suspicion travelling as life |
| `Sync.HearFullState` | src/gossip/gossip_thread.cpp:468-481 | What one receiving of a full state does to each third-party entry is what its one event does |
| `Sync.LearnsAddress` | src/gossip/swim.cpp:449-484 | A node first heard of through a full state is filed under the address, incarnation and class the teller holds, suspicion dropped |
| `Sync.LearnsTeller` | src/gossip/swim.cpp:454-460 | So is the teller itself |
| `Sync.HearAboutSelf` | src/gossip/swim.cpp:52-85 | What a full state does to the receiver itself is what its one event about the receiver does |
| `Sync.MergeEntries` | src/gossip/swim.cpp:86-215 | Push then pull of one entry makes the two sides agree on class and live incarnation, for any two entries |
| `Sync.ThirdPartiesAgree` | src/gossip/gossip_thread.cpp:295-303 | After one exchange, from any two views, both sides agree about every third party |
| `Sync.ResponderSeen` | src/gossip/gossip_thread.cpp:450-466 | The requester never holds the responder Dead afterwards, and agrees about it exactly when it did not hold it alive above its own incarnation |
| `Sync.RequesterSeen` | src/gossip/gossip_thread.cpp:450-466 | The responder agrees about the requester once the provoked refutation arrives, under the mirror condition |
| `Sync.SyncConvergesIff` | src/gossip/gossip_thread.cpp:450-466 | The whole abstract views coincide after the exchange and at most one refutation, if and only if neither held the other alive above its own incarnation |
| `Sync.OverhangForever` | src/gossip/gossip_thread.cpp:450-466 | If one side holds the other alive above its own incarnation, no number of exchanges, whoever asks and with every refutation delivered, makes the views agree |
| `Sync.EventuallyAgreeIff` | src/gossip/gossip_thread.cpp:429-466 | Some number of exchanges makes the two views agree if and only if one does: neither held the other alive above its own incarnation |
| `Sync.XorTakeOut` | src/gossip/swim.cpp:425-447 | The digest does not depend on the order of the table |
| `Sync.RenderedInjective` | src/gossip/swim.cpp:15-24 | Distinct entries render to distinct hash inputs, for ids without the separator |
| `Sync.AbsEqual` | src/gossip/swim.cpp:425-447 | Two abstract views are equal exactly when they agree about every id, whichever node is self |
| `Sync.AbsMeans` | src/gossip/swim.cpp:425-447 | Two views have one abstract view if and only if about every node both know nothing, both hold it dead, both departed, or both in at the same incarnation |
| `Sync.ConvergedDigestsEqual` | src/gossip/swim.cpp:425-447 | Whenever the exchange converges, the two digests are equal, for every hash |
| `Gossip.ApplyKeepsStep` | src/gossip/gossip_thread.cpp:91-101 | Every operation, with its callbacks, keeps the router in step with the membership |
| `Gossip.BootedInStep` | src/main.cpp:154 | A node that has put itself on its own ring starts in step |
| `Gossip.AlwaysInStep` | src/gossip/gossip_thread.cpp:91-101 | After every run the router holds self unless retired, every Alive or Suspect member, possibly Dead ones, no Left one and nobody else |
| `Gossip.NeverReturns` | src/gossip/swim.cpp:331-373 | Once a departure is known, in every continuation the node is on no ring, owns no key and is in no peer list |
| `Gossip.LeaveIsForGood` | src/gossip/swim.cpp:260-290 | In every run, once leave is called for self or a known member the node is on no ring, owns no key and is in no peer list at the end, whatever follows |
| `Gossip.HealthKeepsRouter` | src/gossip/gossip_thread.cpp:95-97 | An operation about health, local or relayed, leaves the router as it is |
| `Gossip.FailuresMoveNoKey` | src/gossip/gossip_thread.cpp:70-97 | Any run of suspicions and deaths, local or relayed, leaves the owners of every key as they were |
| `Addresses.RunKeepsAddress` | src/router.cpp:19-22 | A node on the ring at both ends of any run is at the same address at both: it cannot leave and come back |
| `Addresses.AddedAgrees` | src/gossip/gossip_thread.cpp:91-94 | A node put on the ring is put there at the address the member table has for it |
| `Addresses.ApplyUpdates` | src/gossip/swim.cpp:86-132 | What address each operation leaves in the member table: that of the first event about the node, then of each accepted news of life that carries one |
| `Addresses.StepAgreesIff` | src/router.cpp:21 | After any operation router and table agree about a node on the ring if and only if the address it gives the node is the router’s, or it gives none and they agreed |
| `Addresses.RelayedAgreesIff` | src/gossip/swim.cpp:122-131 | For accepted relayed news of life: if and only if the entry it leaves has the router’s address |
| `Addresses.JoinAgreesIff` | src/gossip/swim.cpp:248-256 | For a direct join that is not refused: the same |
| `Addresses.RunAgreesIff` | src/router.cpp:19-22 | Over any run: if and only if the newest address the run gave is the router’s, or it gave none and they agreed |
| `Addresses.FirstAddressIff` | src/router.cpp:19-22 | From boot: any other node on the ring is at the address it was first put there with, and the table agrees if and only if the newest address accepted since is that first one |
| `Addresses.StaleAddress` | src/router.cpp:21 | A node heard of at one host and then, newer, at another: the ring keeps the first, the table has the second |
| `GossipThreads.GossipThread.constructor` | src/gossip/gossip_thread.cpp:63-102 | The thread starts in step with its router |
| `GossipThreads.GossipThread.Fire` | src/gossip/gossip_thread.cpp:91-101 | The callbacks, in order, do to the router what the notices say |
| `GossipThreads.GossipThread.ApplyIncomingEvents` | src/gossip/gossip_thread.cpp:468-481 | Parsing and applying a field of events is the run of receiving each of them |
| `GossipThreads.GossipThread.AnswerSync` | src/gossip/gossip_thread.cpp:295-303 | The requester’s events are applied, then the full state is sent back |
| `GossipThreads.GossipThread.PerformSync` | src/gossip/gossip_thread.cpp:450-466 | Two node objects talking over the text protocol, the line up, down or losing the reply: what each ends with; with the line up and views the text can carry, exactly the push-pull exchange, any refutation queued |
| `GossipThreads.SyncViews` | src/gossip/gossip_thread.cpp:450-466 | Over a line that is up, sendable views end as the push-pull exchange leaves them |
| `GossipThreads.ReceiveAllDelivers` | src/gossip/gossip_thread.cpp:468-481 | Apart from queue and ring, receiving a list with valid ids is delivering it |
| `GossipThreads.RefutationQueued` | src/gossip/swim.cpp:65-83 | A node that raised its incarnation while taking in a list has the refutation queued |
| `GossipThreads.FullStateCarries` | src/gossip/swim.cpp:449-484 | Every event of a sendable view’s full state survives the wire and passes the id filter |
| `GossipThreads.PayloadSurvives` | src/gossip/gossip_thread.cpp:31-48 | Events put in the last field of a message come out of splitting and parsing as they went in |
| `GossipThreads.PushArrives` | src/gossip/gossip_thread.cpp:458-463 | A pushed full state arrives whole and is delivered as it is |
| `GossipThreads.GossipThread.AnswerJoin` | src/gossip/gossip_thread.cpp:311-400 | The seed’s state and answer for every join message, invalid ids and departed joiners included |
| `GossipThreads.GossipThread.TakeJoin` | src/gossip/gossip_thread.cpp:333-372 | A direct join is refused exactly for a departed joiner, and otherwise passed on at the effective incarnation |
| `GossipThreads.GossipThread.LiveList` | src/gossip/gossip_thread.cpp:374-394 | The answer lists self and every live member as alive |
| `GossipThreads.GossipThread.JoinVia` | src/gossip/gossip_thread.cpp:135-144 | One join over a line that may fail: what joiner and seed end with; with the reply there and views the text can carry, the joiner ends retired if and only if it was, or the seed holds it departed |
| `GossipThreads.GossipThread.JoinViaSeeds` | src/gossip/gossip_thread.cpp:116-147 | The first seed whose reply comes settles the join; until then nothing changes at the joiner; which seeds were asked and what each then holds |
| `GossipThreads.SeedAddressInverts` | src/gossip/gossip_thread.cpp:125-133 | A seed given as host and port is read as that address |
| `GossipThreads.JoinOverhangsIff` | src/gossip/swim.cpp:217-258 | A direct join leaves the seed holding the joiner above its own incarnation if and only if the seed remembered it, not departed, at that incarnation or above |
| `GossipThreads.RememberedJoinerNeverAgrees` | src/gossip/swim.cpp:217-258 | Such a joiner is accepted, and from then on it and its seed never agree, however often they sync |
| `GossipThreads.JoinVerdict` | src/gossip/gossip_thread.cpp:346-363 | A joiner retires on the answer exactly when the seed holds it departed or it already had retired |
| `GossipThreads.JoinOutcome` | src/gossip/swim.cpp:217-258 | A departed joiner changes nothing at the seed; any other is alive there above whatever was held, and that is queued |
| `GossipThreads.NewcomerLearns` | src/gossip/gossip_thread.cpp:374-399 | A newcomer ends holding exactly the seed and its live members, alive at the seed’s incarnations |
| `Events.EventRoundTrip` | src/gossip/member_event.cpp:7-45 | Every event the system sends is read back unchanged |
| `Events.EventText` | src/gossip/member_event.cpp:7-45 | The text of one event, character by character |
| `Events.EventsRoundTrip` | src/gossip/member_event.cpp:47-70 | Every list of such events is read back unchanged and in order, the empty list included |
| `Events.SerializeAllFree` | src/gossip/gossip_thread.cpp:13-19 | A serialized list contains no field separator |
| `Events.SerializeEvents` | src/gossip/member_event.cpp:47-54 | The printing loop produces the joined form |
| `Events.DeserializeEvents` | src/gossip/member_event.cpp:56-70 | The splitting loop reads the tokens, skipping empty ones |
| `Text.SplitAll` | src/gossip/gossip_thread.cpp:31-44 | The splitting loop returns exactly the delimited fields |
| `Text.SplitJoin` | src/gossip/gossip_thread.cpp:31-44 | Splitting undoes joining, for delimiter-free fields |
| `Probes.EachDeadProbedOnce` | src/gossip/gossip_thread.cpp:188-193 | While the dead set of size d stays fixed, each member is probed exactly once in any 5d consecutive ticks |
| `Probes.EachLivePingedOnce` | src/gossip/gossip_thread.cpp:196-204 | While the live set of size m stays fixed, each member is chosen exactly once in any m ticks |
| `Probes.SyncsSpaced` | src/gossip/gossip_thread.cpp:429-448 | Any two syncs started with one peer, with no matching digest between, are at least 10 ticks and 2 mismatches apart |
| `Probes.SyncsAlwaysApart` | src/gossip/gossip_thread.cpp:429-448 | Any two syncs with one peer, a match between or not, are at least two ticks apart, three where the peer answers once a tick |
| `Probes.MatchForgetsCooldown` | src/gossip/gossip_thread.cpp:437-440 | A matching digest forgets the cooldown too: a peer answering once a tick can be synced with again after three ticks |
| `Probes.TwoTicksAttained` | src/gossip/gossip_thread.cpp:188-204 | A peer that answers both a probe and a ping on one tick can be synced with again after two ticks, the least there can be |
| `Probes.Prober.Tick` | src/gossip/gossip_thread.cpp:166-205 | On every fifth tick the next dead member in turn is probed, on every tick the next live one pinged; a retired node does neither |
| `Probes.Prober.Ticks` | src/gossip/gossip_thread.cpp:159-205 | A run of ticks makes exactly the turns the coverage results are about |
| `Probes.Prober.MaybeSync` | src/gossip/gossip_thread.cpp:429-448 | A missing or unreadable digest changes nothing; a matching one forgets the peer; any other number raises its streak by one, or, on the second in a row and at least 10 ticks after the last sync, starts a sync and resets it. Given all acks handled before, these are the syncs of the spacing results |
| `Ring.RemovalFiltersPreference` | src/router.cpp:28-38 | Removing a node turns every key’s full preference list into that list without the node |
| `Ring.UnownedKeysUndisturbed` | src/router.cpp:28-38 | The N owners of a key the removed node did not own are unchanged |
| `Ring.PreferenceComplete` | src/router.cpp:52-74 | A preference list names every node on the ring exactly once |
| `Ring.WalkIsClockwise` | src/router.cpp:60-70 | Stepping an iterator from the lower bound with wrap-around visits the positions clockwise from the key |
| `Ring.ClockwiseByDistance` | src/router.cpp:60-70 | The positions come in order of their clockwise distance from the key |
| `Ring.NearestFirst` | src/router.cpp:60-70 | Of two nodes in a preference list the earlier has a position nearer to the key, clockwise, than every position of the later |
| `Routers.AddedCoherent` | src/router.cpp:19-26 | Adding keeps every ring position owned by a known node |
| `Routers.RemovedCoherent` | src/router.cpp:28-38 | Removing keeps every ring position owned by a known node |
| `Routers.RanIsRingOf` | src/router.cpp:11-38 | After any history of joins and departures without colliding positions, the ring is exactly the positions of the present nodes |
| `Routers.RingIndependentOfHistory` | src/router.cpp:11-38 | Two histories ending in the same node set end in the same ring |
| `Routers.AddThenRemove` | src/router.cpp:19-38 | Adding a node and removing it again is the identity |
| `Routers.AddingInsertsOnly` | src/router.cpp:19-26 | Adding a node only inserts it into preference lists |
| `Routers.VNodeKeyInjective` | src/router.cpp:11-17 | Virtual-node keys of ids without # never coincide |
| `Routers.VNodeKeyText` | src/router.cpp:11-17 | The hashed text of a virtual node, character by character |
| `Routers.Router.constructor` | src/router.cpp:9 | An empty ring |
| `Routers.Router.AddPhysicalNode` | src/router.cpp:19-26 | A new id gets exactly its virtual-node positions, taking over any that collide, every other position stays; a known id changes nothing, its address included |
| `Routers.Router.RemovePhysicalNode` | src/router.cpp:28-38 | Exactly the positions that belong to the node go, the others stay as they were |
| `Routers.Router.FindOwners` | src/router.cpp:52-74 | Exactly min(N, nodes on the ring) owners, N below one read as one, none on an empty ring: the i-th is the i-th node of the preference list, with its address |
| `Routers.Router.Walk` | src/router.cpp:60-72 | The circular loop terminates when enough nodes are represented and collects the preference prefix |
| `Routers.WalkEndsIff` | src/router.cpp:64-72 | The loop’s exit tests are ever met if and only if enough nodes are on the ring |
| `Routers.TwoNodesEndIff` | src/router.cpp:11-26 | After two joins, asking for two owners ends if and only if the first node kept a position the second does not have |
| `Routers.CrowdedOutNeverEnds` | src/router.cpp:64-72 | With a hash that gives every virtual node one position, two joins are followed by a request for two owners that never ends |
| `Routers.AllRepresented` | src/router.cpp:64-72 | If every node keeps a position, every request ends |
| `Routers.ShorterIsPrefix` | src/router.cpp:52-74 | Shorter requests are prefixes of longer ones |
| `RingRouters.RingRouter.Rebuild` | gateway/src/main/java/com/minidynamo/gateway/cluster/RingRouter.java:50-58 | Every listed node’s positions are on the new ring and nothing else is; a position holds a listed node that has it; the count is of the distinct ids |
| `RingRouters.RingRouter.OwnersFor` | gateway/src/main/java/com/minidynamo/gateway/cluster/RingRouter.java:61-82 | Exactly min(N, distinct ids on the ring) owners, N below one read as one, as a prefix of the preference list; nothing on an unbuilt ring |
| `RingRouters.RingRouter.Collect` | gateway/src/main/java/com/minidynamo/gateway/cluster/RingRouter.java:66-80 | The cursor loop terminates and collects that prefix |
| `RingRouters.SnapshotMirrorsRouter` | gateway/src/main/java/com/minidynamo/gateway/cluster/RingRouter.java:50-58 | For the same cluster without collisions the gateway’s ring is the storage node’s, with addresses |
| `RingRouters.GatewayAgreesWithRouter` | gateway/src/main/java/com/minidynamo/gateway/cluster/RingRouter.java:61-82 | For the same cluster without collisions gateway and storage node name the same owners in the same order |
| `Clocks.OrderIsPartialOrder` | src/vector_clock.cpp:61-86 | Comparison is reflexive, antisymmetric and transitive in all its cases |
| `Clocks.EqualMeansSameCounts` | src/vector_clock.cpp:61-86 | EQUAL means the same counters, timestamps aside |
| `Clocks.MergeIsLeastUpperBound` | src/vector_clock.cpp:88-96 | Merge is the least upper bound on counters and makes no zero entry |
| `Clocks.PruneKeepsNewest` | src/vector_clock.cpp:46-59 | Pruning keeps exactly the k entries greatest by (timestamp, id) |
| `Clocks.KeepsNewestUnique` | src/vector_clock.cpp:46-59 | Only one clock fits that description |
| `Clocks.PruneCompose` | src/vector_clock.cpp:46-59 | Pruning to k and then to j is pruning to the smaller |
| `Clocks.PruneMonotone` | src/vector_clock.cpp:46-59 | Clocks with the same ids and stamps keep their order under pruning |
| `Clocks.BumpSurvives` | src/coordinator.cpp:80-94 | The coordinator’s own entry survives the pruning if and only if fewer than k entries are preferred to it |
| `Clocks.BumpAdvances` | src/coordinator.cpp:80-94 | The bumped clock has at most k entries and is not below its context if and only if fewer than k entries are preferred; then it is not below the local clock either |
| `Clocks.FreshStampAdvances` | src/coordinator.cpp:80-94 | With a clock reading newer than every stamp in the context, the bump is above both context and local clock in the own entry |
| `Clocks.BumpDominatesContextIff` | src/coordinator.cpp:80-94 | The new clock strictly dominates its context if and only if nothing had to be pruned |
| `Clocks.BumpDominatesLocalIff` | src/coordinator.cpp:80-94 | With nothing pruned it strictly dominates the local copy if and only if the context has seen everything there but the coordinator’s own writes |
| `Clocks.BlindWriteDominatesIff` | src/coordinator.cpp:81-84 | A write without a context dominates the local copy if and only if that holds nobody else’s writes |
| `Clocks.BlindWriteIsConcurrent` | src/coordinator.cpp:81-84 | Over a copy another node wrote it is concurrent with it |
| `Clocks.SkewedStampLosesTheBump` | src/coordinator.cpp:88-92 | With a clock behind a peer’s stamp the write’s own entry is pruned away and the clock goes nowhere |
| `Clocks.VectorClock.Set` | src/vector_clock.cpp:30-38 | Setting never stores a zero |
| `Clocks.VectorClock.Increment` | src/vector_clock.cpp:40-44 | The incremented clock strictly dominates the old one |
| `Clocks.VectorClock.Prune` | src/vector_clock.cpp:46-59 | The sort-and-erase loop keeps exactly the newest entries |
| `Clocks.VectorClock.Compare` | src/vector_clock.cpp:61-86 | The two loops decide the pointwise order |
| `Clocks.VectorClock.Merge` | src/vector_clock.cpp:88-96 | The pointwise maximum, each entry with the timestamp of the clock it is taken from, the first on a tie |
| `Clocks.VectorClock.Equals` | src/vector_clock.cpp:98-108 | operator== agrees with EQUAL |
| `Base64.DecodeEncode` | src/base64.cpp:24-73 | Decoding undoes encoding, for every byte string |
| `Base64.TestVectors` | src/base64.cpp:24-54 | The published encodings of zero, one, two and three bytes |
| `Base64.EncodeFree` | src/versioned_value.cpp:8-9 | The encoded form contains no field separator |
| `Base64.EncodeBytes` | src/base64.cpp:24-54 | The encoding loop with its one- and two-byte tails |
| `Base64.DecodeText` | src/base64.cpp:56-73 | The running 32-bit buffer decodes the text, skipping anything outside the alphabet |
| `Versions.ClockRoundTrip` | src/vector_clock.cpp:110-153 | A clock with plain ids and 64-bit numbers survives printing and parsing, timestamps included |
| `Versions.AbsorbAllZeroFree` | src/vector_clock.cpp:121-153 | No text parses to a clock with a zero entry |
| `Versions.StorageRoundTrip` | src/versioned_value.cpp:7-41 | A stored version is read back unchanged, tombstones included |
| `Versions.WireKeepsLiveVersionsOnly` | src/node.cpp:213-215 | The receiver reads the key and the sender that were sent, and the version arrives unchanged if and only if it is not a tombstone |
| `Versions.ReplyReadIff` | src/net/pooled_replica_client.cpp:76-96 | A read reply is read as the version sent, less its tombstone flag, if and only if its data does not encode to the word NOTFOUND; then it is read as missing |
| `Versions.UnreadableValue` | src/net/pooled_replica_client.cpp:87-90 | Six bytes whose encoding is that word |
| `Coordinator.OverWireIsReply` | src/net/pooled_replica_client.cpp:76-96 | What a read gathers from a replica is what the reply text says |
| `Versions.PrintClock` | src/vector_clock.cpp:110-119 | The printing loop produces the canonical form, in id order |
| `Versions.ReadClock` | src/vector_clock.cpp:121-153 | The token loop parses every text and stores no zero |
| `Replica.OneStepNeverRegresses` | src/replica_ops.cpp:7-19 | One application never leaves an older version |
| `Replica.TwoStepsCanRegress` | src/replica_ops.cpp:12-17 | Two applications through a concurrent version can end strictly behind |
| `Replica.EndsOnGreatest` | src/replica_ops.cpp:7-19 | Pairwise comparable versions, in any order and with duplicates, end on the greatest |
| `Replica.EndsOnGreatestFrom` | src/replica_ops.cpp:7-19 | The same from any version already stored |
| `Replica.SameDeliveriesSameClock` | src/replica_ops.cpp:7-19 | Replicas given the same such versions end with equal clocks |
| `Replica.OrderInsensitiveExactly` | src/replica_ops.cpp:7-19 | Every delivery sequence ends on its greatest if and only if the versions are pairwise comparable |
| `Replica.Storage.ApplyReplicate` | src/replica_ops.cpp:7-19 | When the version is written, the whole new store, and, for clocks the stored text can carry, that the replica rule is what is read back |
| `Coordinator.MaximalAreConcurrent` | src/coordinator.cpp:248-273 | Any two returned versions are concurrent |
| `Coordinator.MaximalCovers` | src/coordinator.cpp:248-273 | Every found version is equal to or dominated by a returned one |
| `Coordinator.MaximalEmptyIff` | src/coordinator.cpp:248-273 | Nothing is returned only if nothing was found |
| `Coordinator.MaximalOrderFree` | src/coordinator.cpp:248-273 | The set of returned clocks does not depend on the order of responses |
| `Coordinator.MaximalVersions` | src/coordinator.cpp:248-273 | The nested loops return the undominated found versions, one per clock |
| `Coordinator.CoordinateGet` | src/coordinator.cpp:356-391 | Below R the read fails. Otherwise, over the versions found: siblings if and only if two undominated ones are concurrent, every undominated clock then listed; one version only if every found clock equals it or is dominated by it; not found only for nothing or a tombstone. Every repair sends a newest version to a responder behind it, and without conflict every such responder gets one |
| `Coordinator.AnswerTells` | src/coordinator.cpp:364-391 | The answer to any list of undominated versions says that about the versions found |
| `Coordinator.RepairsMean` | src/coordinator.cpp:376-384 | Repairs carry a newest version, to responders behind it only, and without conflict to all of those |
| `Coordinator.RepairsAreStale` | src/coordinator.cpp:376-384 | Only stale responders are repaired, only with the single winner |
| `Coordinator.LocalRepairIsReplication` | src/coordinator.cpp:276-291 | On the response it was decided from, the local overwrite is what the replica rule would do |
| `Coordinator.RepairReachesFixpoint` | src/coordinator.cpp:364-391 | After the repairs every responder equals the winner, reading again gives the same clock and repairs nobody; with siblings nothing changes |
| `Coordinator.DeletedReadIff` | src/coordinator.cpp:379-391 | With the flag lost on replies, a read with a single winner reports the key deleted if and only if the reader is an owner whose own copy is a tombstone no reply is newer than; otherwise the winner is handed out as live |
| `Coordinator.MissingReadIff` | src/coordinator.cpp:364-367 | A read by a node without a copy reports the key missing if and only if every replier has none or one whose data encodes to NOTFOUND; a deletion is not reported |
| `Coordinator.HeldButNotFound` | src/coordinator.cpp:364-367 | Every replica holds the key and a read from elsewhere does not find it |
| `Coordinator.PlanWrite` | src/coordinator.cpp:149-192 | The local put and ack if and only if this node is an owner; a copy to every live owner but this node, one for each dead owner to the first eligible candidate if there is one, and to nobody else; exactly one hint with the write for every dead owner |
| `Coordinator.TargetsAreRight` | src/coordinator.cpp:149-192 | That of the remote targets, with their number |
| `Coordinator.HintsAreRight` | src/coordinator.cpp:149-192 | That of the hints |
| `Coordinator.AllAliveAllSent` | src/coordinator.cpp:149-192 | With every owner alive, the local put and the copies are as many as the owners |
| `Coordinator.TargetsDistinctIff` | src/coordinator.cpp:149-192 | Copies go to distinct nodes if and only if at most one owner is dead or there is no stand-in |
| `Coordinator.AwaitAcks` | src/coordinator.cpp:211-217 | Whenever the waiter looks, acks are local acks plus the acknowledged completions so far; it stops at W, at the last completion or at its deadline |
| `Coordinator.DoubleCounted` | src/coordinator.cpp:157-173 | Two copies sent to one node can be counted as two acks |
| `Coordinator.HonestAcksIff` | src/coordinator.cpp:149-225 | Acks always count distinct nodes if and only if at most one owner is dead or there is no stand-in |
| `Coordinator.CopiesLand` | src/replica_ops.cpp:7-19 | A node an applied copy went to ends with the write or a strictly newer version, and every other node as it was |
| `Coordinator.SuccessMeansWNodes` | src/coordinator.cpp:116-225 | With at most one dead owner or no stand-in, success means at least W acknowledging nodes, all owners or the stand-in, each holding the write or a strictly newer version in the stores the completions leave |
| `Coordinator.SuccessOnTooFewNodes` | src/coordinator.cpp:157-173 | Otherwise there is an order of completions that counts W acks while fewer than W nodes hold anything |
| `Coordinator.WriteQuorum` | src/coordinator.cpp:116-225 | The whole write over a real store: put, copies and hints as planned, when the wait ends, success if and only if the acks then seen reach W; with every owner up and acknowledging, success for every W up to the number of owners; and the nodes that then hold the write |
| `Register.StepKeepsInvariant` | src/coordinator.cpp:80-392 | Every enabled action of writers, replicas and readers keeps the invariant |
| `Register.RunInvariant` | src/coordinator.cpp:80-392 | The invariant holds after every run whose local repairs are forward |
| `Register.RegisterSafety` | src/coordinator.cpp:293-392 | Over all such runs with W+R>n, all stored clocks form a chain and every finished read returns one version, equal to or above every write acknowledged before it started |
| `Register.ReadSeesAcknowledged` | src/coordinator.cpp:293-392 | When a write is acknowledged at one point of a run and a read starts at a later one, the finished read returned exactly one version: that write or one dominating it |
| `Register.UndisturbedIsForward` | src/coordinator.cpp:276-284 | If nothing landed on the reader’s copy since its local read, its repair is forward |
| `Register.UndisturbedIsGuarded` | src/coordinator.cpp:276-284 | Every run in which nothing lands on a reader’s copy between its local read and its local repair has only forward repairs |
| `Register.UndisturbedRunIsSafe` | src/coordinator.cpp:293-392 | Hence in every such run a read started after an acknowledged write returns it or a dominating one |
| `Register.UnguardedRepairRegressesIff` | src/coordinator.cpp:279-284 | A finishing read takes no copy back if and only if its local overwrite obeys the replica rule |
| `Register.UnguardedRunLosesAWrite` | src/coordinator.cpp:279-284 | A reachable run in which an unguarded local repair makes a later read miss an acknowledged write |
| `Merkle.MerkleTree.constructor` | src/antientropy/merkle_tree.cpp:7-11 | 2^(depth+1) zero nodes |
| `Merkle.MerkleTree.Insert` | src/antientropy/merkle_tree.cpp:13-17 | XORs into exactly the leaf given by the top bits |
| `Merkle.MerkleTree.Build` | src/antientropy/merkle_tree.cpp:19-24 | The bottom-up loop makes every inner node the XOR of its children and leaves the leaves alone |
| `Merkle.MerkleTree.Clear` | src/antientropy/merkle_tree.cpp:33 | All nodes zero |
| `Merkle.MerkleTree.Visit` | src/antientropy/merkle_tree.cpp:47-68 | One level of the comparison: what it reports and what it queues |
| `Merkle.MerkleTree.Diff` | src/antientropy/merkle_tree.cpp:35-70 | Terminates and reports, once each and in order, exactly the leaves whose node and every ancestor differ |
| `Merkle.NodeIsLeavesXor` | src/antientropy/merkle_tree.cpp:19-24 | In a built tree every node is the XOR of the leaves below it |
| `Merkle.InsertOrderFree` | src/antientropy/merkle_tree.cpp:13-17 | The leaves do not depend on the order of insertion |
| `Merkle.BuiltOrderFree` | src/antientropy/merkle_tree.cpp:13-24 | Neither does the built tree |
| `Merkle.RangeIsLeaf` | src/antientropy/merkle_tree.cpp:51-61 | A reported range is exactly the key hashes insertion maps to that leaf, within 64 bits |
| `Merkle.OneLeafFound` | src/antientropy/merkle_tree.cpp:35-70 | When exactly one leaf differs, exactly that leaf is reported |
| `Merkle.EqualRootsHideAll` | src/antientropy/merkle_tree.cpp:38 | Equal roots report nothing |
| `Merkle.DifferencesCancel` | src/antientropy/merkle_tree.cpp:38-50 | Two leaves differing by the same amount cancel and neither is reported |
| `Pools.KeyOfInjective` | src/net/connection_pool.cpp:28-30 | Host and port are recovered from the pool key, whatever the host contains |
| `Pools.StepKeeps` | src/net/connection_pool.cpp:14-104 | Every step of callers, reaper and shutdown keeps the conservation equation, the peers and the cap |
| `Pools.DescriptorsConserved` | src/net/connection_pool.cpp:14-104 | Over every interleaving each opened descriptor is idle, held, being closed or closed, exactly one of these and once; pooled and held for its own peer only; idle lists within the cap |
| `Pools.ShutdownLeaksNothing` | src/net/connection_pool.cpp:14-26 | After shutdown, once callers have returned and closed what they had, every descriptor has been closed exactly once |
| `Pools.ReapSplits` | src/net/connection_pool.cpp:86-104 | Reaping divides what is pooled into what stays and what is closed, nothing lost or doubled |
| `Pools.ConnectionPool.constructor` | src/net/connection_pool.cpp:5-12 | An empty pool, a cap of zero read as one |
| `Pools.ConnectionPool.TakeIdle` | src/net/connection_pool.cpp:37-49 | The last connection returned for that peer is handed out and taken off its list; nothing else changes |
| `Pools.ConnectionPool.GiveBack` | src/net/connection_pool.cpp:62-79 | To be closed if and only if stopping or the peer’s list is full; otherwise appended to that list with the current time |
| `Pools.ConnectionPool.Compact` | src/net/connection_pool.cpp:92-100 | The compaction keeps the unexpired entries in order and hands over the others |
| `Pools.ConnectionPool.ReapExpired` | src/net/connection_pool.cpp:86-104 | Over all peers, exactly the connections idle for at most the ttl stay, and exactly the others are handed over for closing |
| `Pools.ConnectionPool.Stop` | src/net/connection_pool.cpp:14-26 | Stops the pool and empties every list, handing over everything pooled |
| `Pools.World.Checkout` | src/net/connection_pool.cpp:32-60 | The caller holds exactly one more descriptor, opened to the peer it asked for, or the connect failed |
| `Pools.World.CheckinAll` | src/net/connection_pool.cpp:62-79 | The caller no longer holds the descriptor and owes no close |
| `Pools.World.Attempt` | src/net/pooled_replica_client.cpp:47-59 | One attempt is on a newly opened connection if and only if the peer has none idle at that point |
| `Pools.World.Exchange` | src/net/pooled_replica_client.cpp:42-61 | With others acting at every point, ends holding nothing and owing no close after at most two attempts, every failed connection closed |
| `Pools.RetryIsFreshIff` | src/net/pooled_replica_client.cpp:44-46 | Left to itself, the retry is on a newly opened connection if and only if at most one was idle to begin with |
| `Pools.TwoStaleConnections` | src/net/pooled_replica_client.cpp:44-46 | With two stale idle connections both attempts draw one of them: the exchange fails with no connection opened |

## Left out

- Membership.ApplyUp: incarnations are unbounded; 64-bit wrap-around is not modelled.
- Clocks.VectorClock.Increment: counters are unbounded; 64-bit wrap-around is not modelled.
- Membership.LimitIsCeiling: the logarithm is exact; the original's is floating-point, and its rounding is not modelled.
- Replica.Storage.ApplyReplicate: what is read back is stated only for incoming clocks whose ids and numbers survive the stored text.
- GossipThreads.GossipThread.PerformSync: the push-pull result is stated only for views the text form can carry (valid ids, hosts without delimiters, incarnations below 2^64 - 1).
- GossipThreads.GossipThread.JoinViaSeeds: seeds are the nodes the addresses lead to, none of them the joiner itself; what each holds is stated when no two are the same node.
- Routers.Router.FindOwners: requires the condition under which the loop ends.
- Merkle.MerkleTree.Diff: depth 1 to 62, where the original's shifts and sizes are defined.
- Pools.DescriptorsConserved: a descriptor is the identity of one opened connection; reuse of integers by the operating system is not modelled.
- Register.RegisterSafety: fixed ring, all owners live, bump and local put one step, clients echoing only clocks they were given; ring changes and sloppy stand-ins are not part of these runs.
- SWIM_PING, SWIM_PING_REQ and SWIM_ACK around the event list they carry: the messages hold no state of their own; what their events and digests do is modelled.
- Random proxy choice and shuffling in randomPeers.
- Data races and lock ordering: each locked section is atomic.
- Real time: timeouts, deadlines and the reaper's wake-up period.
- HintStore, HandoffThread and ThreadPool: simple queues; a delivered hint is one more application of the replica rule.
- AntiEntropyThread's exchange between nodes: its callbacks are stubs; only the tree is modelled.
- The Spring gateway other than RingRouter.
- Sockets, framing, RocksDB, metrics, logging and start-up wiring.
- The quality of hash64: positions are an arbitrary function, collision-freedom a hypothesis where needed.
- Malformed text beyond every parser being total: legacy two-field clocks and bare stored values are read as the code reads them, and nothing more is claimed about them.
