# MIP routing and forwarding, modelled and proved

This project models the distance-vector routing daemon, the forwarding daemon, the linked queue and the ARP array of
the MIP implementation, and proves what they do on all graphs, in all runs. `dafny verify dfyconfig.toml` checks it.

## What is modelled

| file | what it holds |
|---|---|
| Bytes | byte values, constants, the two readings of plain `char` |
| Tables, Timeouts | the routing table, changed in place by a class, and the functions its loops are proved against |
| Revival | what one route, and a whole advertisement, do to any table, unreachable routes included |
| Advertising, Wire, Codec | `send_update` down to bytes: the collection loop, the poison loop, framing and decoding |
| Nodes, HelloRuns | the WAIT/HELLO/UPDATE state machine of one routing daemon, and hello detection |
| Graphs, Network | all routing daemons on a fixed undirected graph, packets lost, duplicated and reordered at will |
| Outages | silence, withdrawal and return in any run; what every event sends; the balance of packets |
| Grounding, Exactness, Convergence, Room, Completion, Rounds | runs without timeouts: quiescence means shortest paths, and can always be reached in tables with room for the routes of the graph; convergence by rounds |
| Daemon, Sessions, Resolution | the forwarding daemon, its FIFO pairing with lookup requests, and unresolved next hops |
| Handover | messages of the routing daemons on their way through both forwarding daemons of a link |
| Delivery, Forwarding, Conservation, Progress | pings over many hosts: one on its own, and any number interleaved |
| Queue, Arp | the heap queue under its two disciplines; the ARP array |

Results to read first: `Network.DistanceSoundness`, `Convergence.QuiescenceIsExact` (with the invariant behind it,
`Convergence.QuietRunInvariant`), `Room.CalmQuiescenceIsExact`, `Completion.QuietRunsCanRest`, `Outages.TickTells`,
`Outages.UpdateIsAbsorbed`, `Handover.UpdateCrosses`, `Resolution.ResolutionSends`, `Exactness.LoopFree`, `Rounds.RoundsConverge`,
`HelloRuns.HelloDetectionInRuns`, `Codec.FramesIntactIff`, `Advertising.AdvertisedIsUsed`,
`Delivery.PingIsDelivered`, `Conservation.ExactlyOnceDelivery` and `Progress.EveryPingArrives`.

### Assumptions that the theorems state

* `WellAddressed`: at most 15 nodes (`MAX_NTWRK_SIZE`), addresses from 1 to 127 that differ from the bytes 'U', 'P'
  and 'D' and are 1 or exceed the number of nodes. The code needs this: a destination of 0 is taken for an unused slot, an
  address of 128 or more can read as negative, and the poison loop damages the packet for a neighbour whose address
  equals a header byte. `Codec.FramesIntactIff` and `Codec.RelayDecodesIff` say exactly when a packet survives,
  and `Codec.ClashWitness` shows one that does not.
* The capacity of the routing table is a parameter. Soundness holds whatever pushes are refused; the convergence
  theorems are about runs in which none is (`QuietStep`, `IsRound`). `Room` shows that none ever is in a run without
  losses and timeouts when each table has room for the possible routes of its node (`Roomy`), whatever the capacity;
  the 16 entries of the source suffice for every graph of three nodes (`Room.SixteenServeThree`).
* Laws of single receipts ask for room for one entry more for each route told (`RoomFor`); `Revival.FullUpdate` says
  what happens without.
* The signedness of `char` is a parameter (`signed`) of everything that compares payload bytes with addresses or hop
  counts: the skip at source/mip_routing.c:430 and the comparisons of `send_update`. The theorems about networks hold
  for both readings, since addresses there are below 128. With a signed `char` a node whose address is 128 or more
  never recognises itself: `Codec.SplitHorizon` covers both cases, and `Codec.SkipFailsWitness` shows the difference.
* Payloads of pings are arbitrary bytes, and are cut as the code cuts them: 510 bytes are read, and `strlen` ends the
  payload at the first NUL. Delivery is stated for what is carried, and `Daemon.CarriedWholeIff` says when that is
  everything. `strlen` also runs on the buffer of a received payload, which is exactly as long as the payload
  (source/mip.c:145 and source/mip.c:484); the model assumes that a NUL byte lies right behind it.
* In Forwarding and the modules after it every packet buffer holds at least one packet (`HostOK`).

### Where the code and its documentation disagree

* README.md:3 of the repository announces poisoned reverse. The loop at source/mip_routing.c:568-572 compares and overwrites header bytes
  only, so no triple is ever poisoned (`Codec.PoisonHarmlessIff`); what protects against loops is the receiver's skip
  at source/mip_routing.c:430 (`Codec.SplitHorizon`). The model follows the code.
* headers/mip_routing.h:66-67 describes `src` as the target and `dest` as the next hop of `update_entry`; the code
  stores them the other way round, and so does the model.
* What `send_update` advertises is not always what `lookup` uses: with a signed `char`, a first route of 128 hops or
  more, such as one at INFINITY, is never improved on. `Advertising.AdvertisedIsUsed` is an equivalence.
* mip-rfc.txt:132-134 counts the SDU length in 32-bit words; the code counts bytes.
* `queue_flush` is called on the packet buffer too, but pops along `next`: on a buffer of two packets or more the first
  pop already cuts the rest off (last clause of `Queue.Queue.HeadPop`) and leaves a NULL head with a length above 0, so
  the second pop dereferences NULL.

## Model

| member | source | states |
|---|---|---|
| Tables.RoutingTable.UpdateEntry | source/mip_routing.c:352-417 | the loop merges, revives and withdraws in place, pushes when nothing matched, and reports exactly that |
| Tables.RoutingTable.UpdateTable | source/mip_routing.c:419-452 | the decoded triples are folded in left to right, hops+1 saturating at 255, triples whose next hop reads as this node skipped (never, for a signed char and an address of 128 or more); the flag says whether anything was new |
| Tables.RoutingTable.Find | source/mip_routing.c:588-612 | the walk returns what the lookup function returns, or 255 and MAX_MIP_ADDR |
| Tables.RoutingTable.UpdateHelloCount | source/mip_routing.c:640-659 | only the first 1-hop entry for the sender is refreshed |
| Tables.RoutingTable.TailPush | source/queue.c:126-153 | a full list refuses the push and stays as it is |
| Tables.LookupFinds | source/mip_routing.c:588-612 | a lookup result is the first entry of minimal finite hop count; no result means no finite entry |
| Tables.LookupIsFirstMinimum | source/mip_routing.c:588-612 | lookup answers if and only if a finite route is stored, and any first-minimal entry is the answer |
| Tables.LookupHopsIsMinimum | source/mip_routing.c:588-605 | the looked-up hop count is a lower bound attained by the entry returned |
| Tables.UpdateEvolution | source/mip_routing.c:352-417 | entries stay in place with their destination and next hop; hop counts change only to or from INFINITY; other routes are untouched |
| Tables.WithdrawPoisons | source/mip_routing.c:387-411 | an INFINITY update leaves every matching entry at INFINITY, others alone, and lookup avoids the sender; the table grows unless an entry was already at INFINITY |
| Tables.FiniteUpdateNeverWorsens | source/mip_routing.c:387-410 | a finite update never raises any looked-up hop count |
| Tables.MergeEvolution | source/mip_routing.c:419-452 | a whole advertisement keeps entries, hello counts and other senders' routes; new entries lead through the sender |
| Tables.RefreshedFirstOnly | source/mip_routing.c:647-658 | position by position: the first link entry gets the new count and nothing else changes |
| Revival.UpdateStores | source/mip_routing.c:387-410 | in any table with room, a finite route is stored: unreachable entries for it come back to life in place, else it is appended unless it is there |
| Revival.FullUpdate | source/mip_routing.c:387-410 | a full table still revives, and loses a new route |
| Revival.UpdateLookups | source/mip_routing.c:387-410 | a finite route lowers the looked-up hop count of its destination to its own if that is lower, and changes no other lookup |
| Revival.MergeStores | source/mip_routing.c:419-452 | each triple of an advertisement that does not lead back is stored one hop longer, unreachable entries included; one at 254 hops or INFINITY withdraws |
| Revival.MergeLookups | source/mip_routing.c:419-452 | what lookup answers after an advertisement: the shorter of the told route and the one it had |
| Revival.FirstAdvertisement | source/mip_routing.c:419-452 | a first advertisement is copied down in the order told, one hop longer, with the current hello count |
| Revival.LearnsIffGrows | source/mip_routing.c:437-448 | news is reported if and only if the table grew |
| Timeouts.CheckForTimeouts | source/mip_routing.c:329-350 | finds the first stale 1-hop entry, or that there is none |
| Timeouts.ExpireRoutes | source/mip_routing.c:170-192 | the loop terminates with the simultaneous result, and updated says whether anything was stale |
| Timeouts.StaleCountDrops | source/mip_routing.c:171-183 | one timeout lowers the number of stale entries |
| Timeouts.ExpiryOrderIrrelevant | source/mip_routing.c:171-183 | expiring any stale neighbour first leaves the same final result to be reached |
| Timeouts.ExpiryConfluent | source/mip_routing.c:171-192 | every sequence of timeouts ends, and every one that leaves nothing stale ends in the simultaneous map |
| Timeouts.ExpiredLeavesNothingStale | source/mip_routing.c:171-192 | afterwards nothing is stale, and only hop counts changed, to INFINITY |
| Timeouts.ExpiredExactly | source/mip_routing.c:171-192 | a timeout makes exactly the routes through silent neighbours unreachable |
| Timeouts.ExpiredLookup | source/mip_routing.c:171-192 | lookup no longer leads through a silent neighbour, and keeps every other answer |
| Advertising.CollectedAt | source/mip_routing.c:515-548 | one turn of the collection loop seen from any destination |
| Advertising.KeptIsLeastUnlessFrozen | source/mip_routing.c:526-538 | the triple kept for a destination is its first of least hops, unless a signed char froze the first listed |
| Advertising.AdvertisedPerDestination | source/mip_routing.c:511-555 | a destination has a triple if and only if it is in the table, and it is the kept one |
| Advertising.AdvertisedDistinct | source/mip_routing.c:511-553 | no destination is advertised twice |
| Advertising.AdvertisedInFirstAppearanceOrder | source/mip_routing.c:511-553 | triples come in the order their destinations first appear |
| Advertising.AdvertisedIsUsed | source/mip_routing.c:526-555 | the triple equals the looked-up route if and only if char is unsigned, or the first listed route has fewer than 128 hops, or it is the looked-up one |
| Advertising.UnreachableIsAdvertised | source/mip_routing.c:511-555 | a destination without a finite route is advertised at INFINITY |
| Advertising.HighDestsRepeat | source/mip_routing.c:515-548 | with a signed char every route to an address of 128 or more is advertised |
| Advertising.ZeroIsNotAdvertised | source/mip_routing.c:515-524 | destination 0 never is |
| Advertising.FrozenRouteWitness | source/mip_routing.c:529-536 | a table whose better route goes unannounced under signed char and not under unsigned |
| Wire.Scan | source/mip_routing.c:515-524 | the inner loop stops at the first record whose destination byte reads as the one sought |
| Wire.ScanFinds | source/mip_routing.c:515-524 | on a laid-out buffer that is the destination's record; 0 matches the first unused one; 128 and up never match a signed char |
| Wire.FillStep | source/mip_routing.c:511-548 | one turn on the byte array writes exactly one record or none |
| Wire.FillStepCollects | source/mip_routing.c:526-548 | and that is one turn on triples |
| Wire.FillBuffer | source/mip_routing.c:493-555 | the loop terminates although it decrements its index, and leaves header, count and records of the advertised triples |
| Wire.WriteFrame | source/mip_routing.c:566-574 | addressing and the poison loop for one neighbour |
| Wire.SendUpdate | source/mip_routing.c:491-586 | the packets written are those of the specification, one for each 1-hop entry, from one shared buffer |
| Codec.PoisonedBytes | source/mip_routing.c:568-572 | the poison loop byte by byte: what it overwrites, as sent or just overwritten |
| Codec.PoisonHarmlessIff | source/mip_routing.c:566-572 | the poison loop changes nothing but the time to live if and only if the target equals no header byte |
| Codec.FramesIntactIff | source/mip_routing.c:557-583 | all packets of an update are intact if and only if no target equals 'U', 'P', 'D' or the count |
| Codec.ClashWitness | source/mip_routing.c:566-572 | node 10 with neighbour 2 and two routes sends a route to 255 instead of one to itself |
| Codec.RelayDecodesIff | source/mip_routing.c:454-468 | up to 16 triples decode to what was sent if and only if there are at most 15; the sixteenth would arrive with 0 hops |
| Codec.SplitHorizon | source/mip_routing.c:426-433 | the receiver folds in exactly the triples whose next hop is not itself, unless its address is 128 or more and char is signed: then it folds in all |
| Codec.SkipFailsWitness | source/mip_routing.c:430 | with a signed char, node 200 stores a route that its neighbour runs through node 200 itself |
| Codec.WireIntact | source/mip_daemon.c:286-305 | every packet of a well-addressed node decodes, at the neighbour, to the sender's advertisement |
| Nodes.HelloFrameBecomesPayload | source/mip_routing.c:470-482 | a HELLO arrives as such, carries no routes and is no update |
| Nodes.UpdateArrives | source/mip_routing.c:426-586 | end to end: each packet of an update, relayed and received, merges exactly the sender's advertisement without the triples that lead back to the receiver |
| Nodes.TypeOnlySteers | source/mip_routing.c:221-260 | routes are folded in whatever the type of the packet says; a HELLO then does what a bare HELLO does, an unknown type nothing more |
| Nodes.RequestChangesNothing | source/mip_routing.c:221 | a lookup request passes through `update_table` without changing anything |
| Nodes.RoutingDaemon.constructor | source/mip_routing.c:116-129 | a daemon starts in STATE_HELLO with the entry for itself |
| Nodes.RoutingDaemon.OnHelloState | source/mip_routing.c:266-289 | sends the HELLO, steps the 8-bit counter, waits |
| Nodes.RoutingDaemon.OnUpdateState | source/mip_routing.c:291-305 | sends the update of the current table, waits |
| Nodes.RoutingDaemon.OnTick | source/mip_routing.c:166-210 | expires silent neighbours, sends an update if there was one, goes to STATE_HELLO |
| Nodes.RoutingDaemon.OnReceive | source/mip_routing.c:212-264 | every packet is merged before its type is looked at; STATE_UPDATE if and only if something new was learnt; requests are answered from lookup |
| Nodes.NodeEvolution | source/mip_routing.c:152-305 | no event removes or reorders entries, and only a HELLO of the destination moves an existing hello count |
| Nodes.QuietCounts | source/mip_routing.c:223-234 | between ticks the counter steps at most once, and an entry's count stays unless its destination is heard |
| Nodes.HelloRefreshes | source/mip_routing.c:223-241 | a HELLO brings the neighbour's entry up to date |
| Nodes.HeardMeansCurrent | source/mip_routing.c:223-289 | and it stays so until the next tick |
| Nodes.HelloDetectionExact | source/mip_routing.c:167-192 | a link survives a tick if and only if a HELLO arrived since the last one, in spite of the 8-bit wrap |
| HelloRuns.NodeRun | source/mip_routing.c:148-320 | what a node does in a network run is a run of its own state machine, in well-shaped tables |
| HelloRuns.RunKeepsLink | source/mip_routing.c:212-264 | between two ticks of a node, whatever arrives, its links stay links at one hop |
| HelloRuns.HelloDetectionInRuns | source/mip_routing.c:167-289 | the same equivalence in every network run, without assumptions on the tables or on what arrives between the ticks |
| Network.UpdateKeepsTable | source/mip_routing.c:352-417 | one sound update keeps a table sound and well-shaped |
| Network.MergeKeepsTable | source/mip_routing.c:419-452 | so does a sound advertisement |
| Network.ExpiryKeepsTable | source/mip_routing.c:171-192 | so do timeouts, which never touch entry 0 |
| Network.ReceiptKeepsTable | source/mip_routing.c:221-251 | so does any packet of the run |
| Network.AdvertisedTripleOK | source/mip_routing.c:511-555 | every advertised finite triple is a real walk, and only the node itself is advertised at 0 hops |
| Network.AdvertisedIsSmall | source/mip_routing.c:541-555 | an update lists at least one and at most as many destinations as there are nodes |
| Network.UpdatesReachLinks | source/mip_routing.c:557-583 | the packets of an update go to the links of the table and read there as its advertisement |
| Network.StepKeepsNet | source/mip_routing.c:148-320 | every event, lookup requests and lost and duplicated packets included, keeps the invariant |
| Network.DistanceSoundness | source/mip_routing.c:352-452 | in every run every finite route is a real walk of exactly its hop count through its next hop, never below the distance |
| Network.NeighbourShape | source/mip_routing.c:123 | in every run entry 0 is the node itself, no other entry has 0 hops, 1-hop entries are links to neighbours, and each neighbour is a link at most once |
| Network.OneCopyPerNeighbour | source/mip_routing.c:557-583 | in every run each update reaches exactly the neighbours held at one hop, one copy each, undamaged |
| Network.RunEvolution | source/mip_routing.c:352-417 | over any stretch of any run entries keep their place, destination and next hop |
| Outages.TickTells | source/mip_routing.c:166-210 | at every tick of every run: if a neighbour was silent, its routes are withdrawn and one packet with the new table goes to each neighbour still held, and none to others; if not, nothing is sent or changed |
| Outages.BadNewsTravels | source/mip_routing.c:195-207 | so a destination left without a route is on its way to each of them at INFINITY |
| Outages.AdvertiseTells | source/mip_routing.c:291-305 | in STATE_UPDATE one packet goes to each neighbour held, and nothing else changes |
| Outages.HelloGreets | source/mip_routing.c:266-289 | in STATE_HELLO one HELLO goes to each neighbour, and the counter steps |
| Outages.UpdateIsAbsorbed | source/mip_routing.c:212-251 | an update delivered in any run: what is stored, revived and withdrawn, what lookup answers, and when there is news to tell |
| Outages.HelloIsHeard | source/mip_routing.c:223-241 | a HELLO delivered in any run makes the link current, whether held, unreachable or new; only a new link is news |
| Outages.TablesFit | source/queue.c:126-153 | no table ever outgrows its queue |
| Outages.NodesCanAct | source/mip_routing.c:148-320 | in every state of every run a node can do exactly what its state allows |
| Outages.PacketsCanMove | source/mip_routing.c:212-264 | each packet in flight can be lost, duplicated, and received whenever its receiver waits |
| Outages.CounterCountsHellos | source/mip_routing.c:266-289 | the hello counter is the number of HELLOs sent, modulo 256 |
| Outages.PacketsBalance | source/mip_routing.c:148-320 | in every state of every run, sent plus duplicated is received plus lost plus in flight, packet by packet |
| Grounding.FiniteMergeGrows | source/mip_routing.c:387-452 | merging finite routes stores each that does not lead back, changes nothing else, and reports exactly that |
| Grounding.BestRests | source/mip_routing.c:588-612 | a route in use rests on a simple path that does not pass its owner twice |
| Grounding.AdvertisedRests | source/mip_routing.c:511-555 | so hop counts stay below the number of nodes and never saturate while nothing times out |
| Grounding.ChoiceIsAdvertised | source/mip_routing.c:511-555 | while nothing times out the looked-up route is among those advertised |
| Exactness.NextHopIsCloser | source/mip_routing.c:588-612 | with exact tables the looked-up next hop is a neighbour one link closer that knows a route itself |
| Exactness.LoopFree | source/mip_routing.c:588-612 | following next hops towards any destination never visits a node twice |
| Convergence.ReceiptIsQuiet | source/mip_routing.c:221-251 | a receipt without timeouts only adds routes, and then leads to STATE_UPDATE |
| Convergence.AdvertiseKeepsPending | source/mip_routing.c:291-305 | sending puts every route in use in flight to every link |
| Convergence.DeliveryKeepsPending | source/mip_routing.c:419-452 | a delivered route ends up stored one hop longer, or led through the receiver |
| Convergence.QuietRunInvariant | source/mip_routing.c:221-305 | in every state of a quiet run a route in use is due to be sent, in flight, stored at the neighbour, or leads through it |
| Convergence.QuietRunNeverWorsens | source/mip_routing.c:588-612 | in a quiet run no looked-up hop count ever rises |
| Convergence.NeighbourReported | source/mip_routing.c:426-433 | the skip of routes whose next hop is the receiver never blocks a shortest path |
| Convergence.QuiescenceIsExact | source/mip_routing.c:221-305 | once a quiet run is at rest, lookup answers exactly the reachable destinations with exactly their distances |
| Convergence.AdvertisesBounded | source/mip_routing.c:236-251 | in a quiet run a node with room for n entries sends at most n-1 updates |
| Room.TableIsBounded | source/mip_routing.c:352-417 | while nothing times out a table holds its node and at most the possible routes of the graph, none twice |
| Room.RoomMakesQuiet | source/queue.c:126-153 | with room for those no push is refused |
| Room.CalmRunsAreQuiet | source/mip_routing.c:148-320 | so every run without losses and timeouts is quiet |
| Room.CalmQuiescenceIsExact | source/mip_routing.c:221-305 | and exact once at rest, with nothing assumed about pushes |
| Room.SixteenServeThree | headers/queue.h:6 | the capacity of the source is room for every graph of three nodes |
| Completion.RunKeepsComing | source/mip_routing.c:223-289 | in every state of a quiet run each neighbour's HELLO is due, on its way, or has made a link |
| Completion.DeliveryFills | source/mip_routing.c:387-452 | a delivery that adds a route leaves strictly fewer of the finitely many routes still to be stored |
| Completion.SomeStepIsCloser | source/mip_routing.c:148-320 | with room for the routes of the graph, some quiet step is possible and lowers a well-founded measure until nothing is due or on its way |
| Completion.QuietRunsCanRest | source/mip_routing.c:148-320 | with room for the routes of the graph, at any capacity, every quiet run has a quiet continuation in which all neighbours are heard and the network is at rest |
| Completion.ExactnessIsReachable | source/mip_routing.c:148-320 | so every quiet run has a continuation after which all lookups are exact |
| Rounds.RoundGrows | source/mip_routing.c:419-452 | a round stores every route the neighbours advertised that does not lead back |
| Rounds.RoundExtendsKnown | source/mip_routing.c:419-452 | one round extends exact knowledge by one link |
| Rounds.RoundsConverge | source/mip_routing.c:491-612 | after k rounds lookup is exact for every destination within k+1 links |
| Rounds.RoundsReachExact | source/mip_routing.c:491-612 | with n nodes, n-2 rounds make every table exact |
| Daemon.CarriedWholeIff | source/mip.c:112-139 | what is carried of a payload is the longest prefix of at most 510 bytes without a NUL, carried whole itself; a payload is carried whole if and only if it has no NUL and at most 510 bytes |
| Daemon.SerializeRoundTrip | source/mip.c:480-492 | deserialising a serialised SDU gives it back cut at the first NUL, so it gives back the SDU if and only if there is none |
| Daemon.Daemon.Strlen | source/mip.c:484 | counts the bytes before the first NUL |
| Daemon.Daemon.HandleApp | source/mip_daemon.c:407-482 | a lookup is requested and the packet buffered with the `strlen` of its payload as length, or lost when the buffer is full |
| Daemon.Daemon.HandleRouting | source/mip_daemon.c:243-403 | a HELLO is broadcast, an update sent to the neighbour in its first byte or lost unresolved, a response applied, anything else ignored |
| Daemon.Daemon.HandleResponse | source/mip_daemon.c:312-403 | the oldest packet is discarded, sent to the next hop, or kept while it is unresolved |
| Daemon.Daemon.HandleArpResponse | source/mip_daemon.c:618-642 | the address is added, or a full table of 16 ends the daemon; the oldest packet is tried and leaves the buffer either way |
| Daemon.Daemon.HandleFrame | source/mip_daemon.c:509-615 | delivery, cut at the first NUL, with the source in place of the destination; forwarding with a 4-bit countdown; or hand-over of sdu_len bytes to routing |
| Sessions.PairingKeptIff | source/mip_daemon.c:339-403 | a step keeps requests and buffered packets paired if and only if no push is refused, the next hop is resolved, and no ARP response meets a waiting packet |
| Sessions.AnswerReachesItsPacket | source/mip_daemon.c:339-402 | a response is applied to the packet whose destination was asked for |
| Sessions.EachPacketLeavesOnce | source/mip_daemon.c:339-403 | over whole runs packets leave in order, each exactly once, and departure i follows answer i |
| Resolution.ResolutionSends | source/mip_daemon.c:388-403 | a packet for an unresolved next hop waits unchanged behind one ARP request, and the response sends it there and makes the next hop known |
| Resolution.ArpResponseOutcome | source/mip_daemon.c:618-642 | what any ARP response does, to a full table, an empty buffer, and a packet that is or is not resolved by it |
| Resolution.FirstPingLeaves | source/mip_daemon.c:360-642 | the first ping over a link leaves with its carried payload, from application to wire |
| Resolution.StrayAnswer | source/mip_daemon.c:360-364 | an answer for which no packet waits changes nothing |
| Resolution.AppIsBuffered | source/mip_daemon.c:445-481 | a full buffer keeps its packets and loses the new one; the request goes out in any case |
| Resolution.PingForUs | source/mip_daemon.c:534-548 | a ping for this host is handed up with its source and the text of the bytes announced |
| Resolution.PingForOthers | source/mip_daemon.c:551-597 | any other ping is dropped at time to live 1, else kept one count lower, or lost if the buffer is full |
| Resolution.OtherFrames | source/mip_daemon.c:600-615 | a routing frame hands up exactly the bytes announced, and only unknown types end the daemon |
| Resolution.EnabledUnlessFail | source/mip.c:318-322 | the events of a session are exactly those the daemon survives |
| Handover.HelloCrosses | source/mip_daemon.c:274-284 | a HELLO crosses both daemons of a link whole |
| Handover.UpdateCrosses | source/mip_daemon.c:286-305 | each packet of an update crosses both daemons whole if its neighbour is resolved, and decodes there to the sender's advertisement; if not it is lost behind an ARP request |
| Handover.LookupCrosses | source/mip_routing.c:614-638 | the answer to a lookup reaches the oldest packet through the daemon |
| Handover.RelayedIffSent | source/mip.c:160-193 | the network model relays a message if and only if the daemon sends it on |
| Delivery.TtlBoundsForwarding | source/mip_daemon.c:551-597 | under any next hops, cyclic and changing ones included, at most (t-1) mod 16 hosts forward a datagram |
| Delivery.PingTravelsAtMost16 | source/mip_daemon.c:454-481 | no ping is ever sent over more than 16 links |
| Delivery.HostForwards | source/mip_daemon.c:551-597 | what one host does to a packet in transit |
| Delivery.HostStops | source/mip_daemon.c:345-397 | a journey ends short exactly without a route, or at an unresolved next hop |
| Delivery.TravelReaches | source/mip_daemon.c:534-597 | led closer at every host, a datagram arrives if and only if its time to live allows the distance |
| Delivery.PingIsDelivered | source/mip_daemon.c:360-403 | with exact tables a ping is delivered if and only if the distance is at most 16, in exactly that many sends, with its originator and the payload as far as it is carried: all of it if and only if it has no NUL and at most 510 bytes |
| Delivery.QuiescentNetworkDelivers | source/mip_daemon.c:360-403 | after a quiet run at rest every ping between connected hosts arrives over a shortest path without visiting a host twice, its payload whole under the same condition |
| Forwarding.NextLeg | source/mip_daemon.c:360-369 | the answer to a lookup brings the packet one link further on its shortest path |
| Forwarding.ForwardedOnCourse | source/mip_daemon.c:551-562 | a ping on course never expires |
| Forwarding.StepKeepsWorld | source/mip_daemon.c:243-651 | every step at any host keeps every ping on course and every host paired |
| Conservation.StepConserves | source/mip_daemon.c:312-597 | every step moves at most one ping between buffers, links and applications |
| Conservation.ExactlyOnceDelivery | source/mip_daemon.c:312-597 | in every interleaving without refused pushes, what is delivered is part of what was sent, as far as payloads are carried, and all of it once the network is at rest; byte for byte if no payload has a NUL or more than 510 bytes |
| Conservation.WholePingsAreUncut | source/mip_daemon.c:454 | a list of pings is carried unchanged if and only if each payload has no NUL and at most 510 bytes |
| Conservation.DeliveredAfterDistance | source/mip_daemon.c:534-562 | every arriving ping has come exactly the distance |
| Conservation.RoomToInject | source/mip_daemon.c:407-482 | a ping can be injected wherever the buffer has room |
| Conservation.NeverStuck | source/mip_daemon.c:243-651 | a network that is not at rest can go on by itself |
| Progress.StepUsesWork | source/mip_daemon.c:312-597 | every step but an injection uses up work, and an injection adds 32 steps of it |
| Progress.TrafficEnds | source/mip_daemon.c:551-562 | n pings keep the network busy for at most 33 n steps |
| Progress.EveryPingArrives | source/mip_daemon.c:243-651 | every run has a continuation, without further injections and within 33 steps a ping in all, that is at rest and has delivered all that was injected |
| Queue.Queue.constructor | source/queue.c:21-32 | an empty queue is valid under both disciplines |
| Queue.Queue.TailPush | source/queue.c:126-153 | along `next`: appends, or changes nothing at 16 entries |
| Queue.Queue.HeadPush | source/queue.c:77-105 | along `prev`: appends, or changes nothing at 16 entries |
| Queue.Queue.HeadPop | source/queue.c:107-124 | removes the oldest of a `next` list, or the only one of a `prev` list; cuts a longer `prev` list off |
| Queue.Queue.TailPop | source/queue.c:155-172 | removes the oldest of a `prev` list |
| Queue.Queue.DestroyTail | source/queue.c:64-68 | destroying the tail removes the oldest packet, also when it is the only one |
| Queue.Queue.Walk | source/mip_routing.c:336-347 | walking `next` k times reads entry k |
| Queue.Queue.Flush | source/queue.c:190-197 | terminates on a `next` list and empties it |
| Arp.ArpTable.AddEntry | source/mip_arp.c:18-49 | fills the first empty slot, keeping the prefix, or refuses a full table unchanged |
| Arp.ArpTable.GetByMipAddress | source/mip_arp.c:51-64 | finds the first entry of that address if there is one |
| Arp.ArpTable.GetByIfindex | source/mip_arp.c:66-79 | finds the first entry of that interface if there is one |
| Arp.ArpTable.RemoveEntry | source/mip_arp.c:81-111 | deletes the first occurrence of the entry and closes the gap, or reports that it is absent |
| Arp.AddingKeepsAnswers | source/mip_arp.c:38-64 | adding never changes the answer for an address already found |
| Arp.RemovingKeepsOtherAnswers | source/mip_arp.c:81-111 | removing changes only the answer that was the removed entry |

## Left out

- Sockets, epoll, timers, interface discovery, argument parsing and debugging output: events are inputs, packets are outputs.
- Allocation failure, freeing and the cleanup before exit; allocation succeeds.
- The bit layout of headers: records with bounded fields stand for them, and the 4-bit time to live wraps.
- The routing table and the packet buffer are sequences in their own modules: Queue proves that the linked lists are such sequences, and no object of Queue is shared with them.
- The class of Timeouts, Wire and Nodes is one table object: update in place and the sharing of one buffer between packets are modelled, aliasing of entries is not.
- Topology change: the graph is fixed, since finite routes survive when a neighbour's finite cost worsens; links may still time out and come back.
- ARP as a protocol: resolution is a hypothesis where end-to-end delivery is claimed (one host at a time it is in Resolution), and an update to an unresolved neighbour is a lost packet.
- Delivery.PingIsDelivered: takes each host on its own with an empty buffer; Forwarding and Conservation treat all traffic at once.
- Sessions.EachPacketLeavesOnce: frames of unknown type end the daemon and so the run.
- A frame whose payload holds a NUL before its announced length: the daemons of the model never send one; when such a frame is forwarded, Daemon pads the cut payload with zeros where the code sends what is left in its buffer.
- Messages of an application shorter than the two bytes in front of the payload.
- Daemon.Daemon.HandleFrame: demands that the frame is no ARP frame and holds the bytes its header announces; an ARP response is the separate event of HandleArpResponse, and answering ARP requests is left out.
- Arp.ArpTable.RemoveEntry: demands a free slot or an absent entry, because on a full table the shifting loop runs past the array.
- Tables.RoutingTable.UpdateTable: demands a count byte of at most 16, because the code reads past its 54-byte payload otherwise.
- Daemon.Daemon.HandleRouting: demands an update whose announced length stays inside the 512 bytes of the buffer, because the code reads past it otherwise.
- Daemon.Daemon.HandleResponse: demands a buffered packet when the answer is "no route", because the code dereferences the tail unchecked; paired sessions meet this.
- Use of both ends of one queue, deletion in its middle, `queue_tail_peek` and `get_entry_by_mip_addr`: no caller needs them.
- The ping programs and their timeouts.
