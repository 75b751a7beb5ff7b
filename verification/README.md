# A verified model of go-is-is

go-is-is is a small IS-IS router: routers greet each other with hellos, bring
adjacencies UP, flood link state PDUs (LSPs) to every router of the network, run
Dijkstra's algorithm over the LSP database, and forward along the result. This project
models that chain and proves that it holds together, from the bytes of a frame to
loop-free forwarding in a whole network.

The layers, bottom up:

- **Codec** (`Bytes`, `SystemId`, `TlvList`, `Lsps`, `Hellos`, `Wire`): system IDs, TLV
  lists (as the linked list the source builds), LSP and hello frames, and what the
  receiving side makes of a frame.
- **Databases** (`AvlTree`, `Avl`): the AVL tree as a value, with its theorems, and the
  tree on the heap, whose in-place methods are proved to compute the value tree.
- **Decision process** (`Graphs`, `Spf`, `Decision`, `NextHop`, `UnequalMetrics`,
  `LoopExample`, `Topology`): Dijkstra over PATHS and TENT against an independent definition
  of distance (least total metric over all walks), and what the recorded next hops are
  worth.
- **One router** (`Interfaces`, `Nodes`, `Adverts`, `NodeSteps`, `Routers`): the handlers as
  functions on a router's state, what they must do said without them, and the classes `Interface` and `Router` whose methods update
  fields in place and are proved to do exactly what those functions say.
- **The network** (`Network`, `Safety`, `Convergence`, `Termination`, `Handshake`,
  `Bootstrap`, `Forwarding`, `WireNetwork`): routers, two-ended links and messages in
  flight as a step system, and the same network with frames on its links. Theorems are
  about every run from boot, with any cabling, any number of routers and any order of
  timers and deliveries.

How the main results fit together: `Safety.StepKeeps` proves one inductive invariant for
every event. `Convergence.DatabasesConverge` reads equal databases off it in quiescent
states, `Termination.FloodingTerminates` bounds the flooding between generations,
`Bootstrap.EveryRunIsBounded` all that can happen in any run, and `Bootstrap.EndedIffCalm`
says where runs end. `Decision.ComputeSPF` and `NextHop.UniformNextHops` give
exact distances and right first hops on such databases, and
`Forwarding.LoopFreeForwarding` puts all of it together. `WireNetwork.StepsMatch` shows
that the network with frames takes the same steps, so convergence, forwarding and
bootstrap hold over the wire (`WireNetwork.WireConvergence`,
`WireNetwork.WireForwarding`, `WireNetwork.WireBecomesCalm`), and no receiver ever indexes
past a frame (`WireNetwork.FramesAreSafe`).

Some properties one might expect are false of the code, and are stated with their exact
conditions:

- Deleting a key with two children from the AVL tree copies the successor's key but not
  its data (avl.go:151). `AvlTree.DeleteLosesData` is an example,
  `AvlTree.DeleteIsRemovalIff` the exact condition, `AvlTree.DeleteEffect` the exact
  result in all cases.
- When a tentative distance is lowered, the next hop is kept (decision.go:101-103).
  `LoopExample.RunLoop` calls the algorithm on concrete LSPs and gets two routers that
  forward to each other; their own links have metric 10, as the code sets it, and the LSPs
  of other systems list other metrics. Which neighbour is recorded depends on where a
  system is first met, which the graph determines: `NextHop.HopCorrectIff` and
  `NextHop.TableCorrectIff` give the exact condition on the graph, for any metrics, and
  `NextHop.UniformNextHops` shows that equal metrics, which are all the code ever writes,
  meet it.
- A length byte wraps, so a local LSP survives the wire exactly when it has at most 21
  routes and 23 adjacencies (`Wire.LocalLspSurvivesIff`).
- A configured system ID keeps its name exactly when it is dotted lower-case hex
  (`SystemId.ConfiguredIdSurvivesIff`); upper case is lost (`SystemId.UpperCaseIsLost`).

Assumptions about the network: links have two ends at different routers and lose nothing,
system IDs are distinct and fixed, and a router has at most 23 links and 21 routes
(`Network.Cabled`); handlers are atomic and no router generates 2^32 LSPs
(`Network.Enabled`); routers start empty and do not restart (`Network.Initial`); the
interface names of a router are distinct (`Routers.DistinctInterfaces`).

## Model

| member | source | states |
|---|---|---|
| `SystemId.SystemIDToString` | main.go:85-98 | for 6 bytes the loop yields 14 characters, dots at 4 and 9, and for each byte the digits 0-9a-f of its high and then its low half; for any other length the empty string |
| `SystemId.FromTextReads` | main.go:100-107 | systemIDToBytes reads a dotted lower-case text digit by digit, high half first |
| `SystemId.UpperCaseIsRead` | main.go:100-107 | upper-case digits are read as the same bytes |
| `SystemId.ErrorsAreIgnored` | main.go:103-105 | decoding stops at the first bad pair, and missing bytes are zero |
| `SystemId.SixDotsAreDropped` | main.go:101 | six dots are dropped wherever they stand |
| `SystemId.SeventhDotStays` | main.go:101 | a seventh is not, and ends the decoding |
| `SystemId.FromTextOfText` | main.go:85-107 | systemIDToBytes inverts systemIDToString on every 6-byte ID |
| `SystemId.ConfiguredIdSurvivesIff` | main.go:85-107 | a configured text survives the trip through bytes exactly when it is dotted lower-case hex; any other text no longer equals the name in the router's own LSP |
| `SystemId.UpperCaseIsLost` | main.go:40 | an upper-case ID, which the comment on the field allows, comes back as another text |
| `SystemId.KeyInjective` | update.go:235-245 | two system IDs with the same database key are the same ID |
| `Bytes.Uint32KeepsOrder` | update.go:149-149 | sequence numbers are ordered as their four bytes are, first byte first, which is what big-endian means |
| `Bytes.Uint64KeepsOrder` | update.go:242-245 | so are keys and the eight bytes of the LSP ID |
| `TlvList.ParseTLVs` | ethernet.go:51-81 | on any buffer it can walk, the loop builds a nil-terminated list of fresh, distinct nodes whose values are the decoded TLVs in order |
| `TlvList.SerializeTLVs` | update.go:224-231 | walking any such list writes exactly the encoding of its TLVs |
| `TlvList.DecodeOfEncode` | ethernet.go:51-81 | TLVs written after any prefix are read back unchanged from the end of that prefix |
| `TlvList.EncodedAt` | update.go:224-231 | each TLV stands behind those before it: its type, its length, its value |
| `TlvList.EncodeOfDecode` | update.go:220-233 | writing back what was parsed from any well-formed buffer reproduces its bytes |
| `TlvList.RoundTripIff` | update.go:199-233 | a TLV list survives the wire exactly when every length byte matches its value |
| `Lsps.FrameRoundTrip` | update.go:199-233 | an LSP put into an Ethernet frame comes out with the same headers, TLVs, ID and key |
| `Lsps.LspLayout` | update.go:27-40 | the offset of every header field, and of the TLVs, in a serialized LSP |
| `Lsps.ShortFrameIsZero` | update.go:201-218 | a frame that ends before the LSP header does gives a zero header, key 0 and no TLVs |
| `Lsps.ReserializeIsIdentity` | update.go:199-233 | serializing a received LSP reproduces the received payload byte for byte, and its ID and key are those of the header |
| `Lsps.ReadEntries` | update.go:258-273 | the loop over currentByte decodes each 11-byte entry in order, without reading past the value |
| `Lsps.GetNeighbors` | update.go:254-274 | as many entries are decoded as fit in the length byte after the flag byte |
| `Lsps.LookupIsFirst` | update.go:276-287 | the first TLV of type 2 counts, and there are no neighbours without one |
| `Lsps.NeighborRoundTripIff` | update.go:254-341 | decoding the neighbour TLV built for a list of adjacencies yields that list in order at metric 10 exactly when there are at most 23 |
| `Lsps.GetPrefixesFromTLV` | update.go:343-359 | the loop decodes address and mask of each 12-byte entry in order |
| `Lsps.PrefixRoundTripIff` | update.go:289-359 | decoding the prefix TLV built for a list of routes yields that list exactly when there are at most 21 |
| `Lsps.LocalTlvsListAdjacencies` | update.go:276-287 | looking up the neighbours in a local LSP, behind its prefix TLV, finds the UP adjacencies; within the limits all length bytes match |
| `Lsps.LocalTlvsListOnlyAdjacencies` | update.go:317-341 | even a local LSP whose length byte has wrapped lists only real adjacencies at metric 10 |
| `Lsps.LocalTlvsMatchIff` | update.go:289-341 | the length bytes of a local LSP match exactly with at most 21 routes and 23 adjacencies |
| `Hellos.HelloRoundTrip` | hello.go:77-116 | a hello put into a frame comes out with the same source MAC, system ID and TLVs, at the multicast address and with the type byte recvPdus looks for |
| `Wire.HelloFrameIs` | hello.go:49-95 | every byte of a hello frame: addresses, EtherType, both headers, TLVs |
| `Wire.ReplyTlvsAre` | hello.go:118-141 | the bytes of a reply's TLVs: 6, 6 and the MAC answered, then 132, 4 and the sender's address |
| `Wire.LspFrameIs` | update.go:187-187 | an LSP frame goes to 01:80:c2:00:00:14 from the interface's MAC with EtherType 08 00 |
| `Wire.LocalLspBytes` | update.go:380-401 | every byte of a local LSP but its TLVs |
| `Wire.ArriveSorts` | ethernet.go:259-268 | by literal bytes: which frames are dropped, and which go to which handler |
| `Wire.WireRoundTrip` | ethernet.go:245-270 | recvPdus hands each kind of frame to the right decoder, which recovers the message sent |
| `Wire.LocalLspSurvivesIff` | update.go:403-415 | the LSP generateLocalLsp builds is received as it was sent exactly when it has at most 21 routes and 23 adjacencies |
| `Wire.FramesDiffer` | ethernet.go:177-190 | different messages never share a frame |
| `AvlTree.RotateRightKeepsMap` | avl.go:49-63 | a right rotation keeps the stored map and the search order |
| `AvlTree.RotateLeftKeepsMap` | avl.go:65-78 | a left rotation keeps the stored map and the search order |
| `AvlTree.SingleRight` | avl.go:160-163 | one right rotation repairs a left-heavy node whose left child does not lean right: map, order, exact heights, balance, and the resulting height |
| `AvlTree.SingleLeft` | avl.go:169-172 | the mirror image |
| `AvlTree.DoubleRight` | avl.go:164-168 | the double rotation repairs a left-heavy node whose left child leans right, and the grandchild it dereferences exists |
| `AvlTree.DoubleLeft` | avl.go:173-177 | the mirror image |
| `AvlTree.InsertRefinesMap` | avl.go:80-124 | insert refines finite-map insert (an existing entry changes only under overwrite), keeps order, exact cached heights and balance, and grows the height by at most one, towards the key |
| `AvlTree.InsertIsRotatable` | avl.go:105-122 | the rotation chosen by key comparison never follows a nil pointer |
| `AvlTree.SearchIsLookup` | avl.go:181-195 | search is map lookup |
| `AvlTree.DeleteEffect` | avl.go:126-179 | delete removes exactly the key, keeps order, exact heights and balance, loses at most one level; the resulting map, including the data left at the moved key, is given exactly |
| `AvlTree.SuccessorOf` | avl.go:147-152 | the key moved up in the two-children case is the least key above the deleted one |
| `AvlTree.DeleteIsRemovalIff` | avl.go:146-153 | delete is plain map removal exactly when the deleted node does not have two children, or its successor already holds the same data |
| `AvlTree.DeleteLosesData` | avl.go:151-151 | deleting 2 from the tree of 1, 2, 3 leaves 3 with the data of 2 |
| `AvlTree.InOrderIsMap` | avl.go:212-234 | the in-order sequence lists exactly the entries of the map |
| `AvlTree.InOrderIsSorted` | avl.go:212-234 | its keys are strictly increasing, so each entry occurs once |
| `AvlTree.AvlSizeBound` | avl.go:80-195 | a balanced tree of height h holds at least Fib(h + 2) - 1 nodes |
| `AvlTree.EveryHistoryIsBalanced` | avl.go:80-195 | after any sequence of inserts and deletes the tree is balanced, holds exactly the keys inserted and not deleted since, and with height h has at least Fib(h + 2) - 1 and so at least 2^(h / 2) - 1 of them: its height is logarithmic |
| `Avl.RotateRight` | avl.go:49-63 | the pointer surgery computes the value rotation on the same nodes |
| `Avl.RotateLeft` | avl.go:65-78 | the mirror image |
| `Avl.RebalanceByKey` | avl.go:101-123 | the four key-comparison cases, in place |
| `Avl.AvlInsert` | avl.go:80-124 | the in-place insert computes the value insert, adding at most fresh nodes and sharing none |
| `Avl.Fix` | avl.go:158-178 | the tail of delete recomputes the height and rotates by balance factor, in place, without a nil dereference |
| `Avl.LeftmostKey` | avl.go:147-150 | the successor loop ends at the least key of the right subtree |
| `Avl.AvlDelete` | avl.go:126-179 | the in-place delete computes the value delete on a subset of the old nodes |
| `Avl.AvlSearch` | avl.go:181-195 | searching the heap tree is searching its value |
| `Avl.AvlGetAll` | avl.go:212-234 | the explicit-stack loop terminates and returns the tree's own nodes, each once, in the order of the recursive traversal, with the entries of the map |
| `Spf.Frontier` | decision.go:165-204 | between iterations, a walk that leaves the settled systems is at least as long as some tentative distance |
| `Spf.SettleClosest` | decision.go:173-191 | moving the closest tentative system to PATHS keeps the loop invariant, with that system's links still to relax |
| `Spf.AddKeepsInv` | decision.go:88-114 | each call of addAdjToTent closes one open link and keeps the rest of the invariant, including the rule by which next hops are recorded |
| `Spf.SumFits` | decision.go:101-108 | if (systems - 1) x (largest metric) stays below the sentinel, no distance sum wraps a uint32 |
| `Spf.Exhausted` | decision.go:165-204 | when TENT is empty every reachable system is settled |
| `Spf.UniformSpan` | decision.go:165-204 | with equal metrics, tentative distances lie within one metric of the last settled distance |
| `Spf.SpanAfterSettle` | decision.go:173-191 | so when a newly settled system is relaxed, no tentative distance exceeds its distance by more than one metric |
| `Spf.UniformRelax` | decision.go:97-112 | and each call of addAdjToTent keeps that span and leaves every entry as it was |
| `Decision.CheckInPaths` | decision.go:79-86 | true exactly if the system is in the list |
| `Decision.AddAdjToTent` | decision.go:88-114 | computes the specified TENT and reports by how much it grew |
| `Decision.GetAdjacencies` | decision.go:59-77 | collects the neighbours listed by the LSPs of a system, in order |
| `Decision.NeighborsInMeans` | decision.go:59-77 | that collection has exactly the neighbours some LSP of the system lists |
| `Decision.ScanTent` | decision.go:171-179 | finds the first entry of least distance, or none exactly when every distance is the sentinel |
| `Decision.FindLocal` | decision.go:136-147 | finds the local LSP, or reports that there is none |
| `Decision.LoadTent` | decision.go:154-158 | the loop over the interfaces builds one entry per UP adjacency, in order |
| `Decision.UpTriplesMeans` | decision.go:154-158 | the first TENT has one distinct entry for each UP adjacency and nothing else |
| `Decision.RelaxAll` | decision.go:192-203 | after the loop over a settled system's neighbours none of its links is open, and tentSize equals the length of TENT; with equal metrics the loop only appends, so the decrease branch never takes effect |
| `Decision.TentIsReal` | decision.go:163-180 | while TENT is not empty the scan finds an index, and fewer systems are settled than exist |
| `Decision.ComputeSPF` | decision.go:116-204 | for arbitrary metrics without wrap: nothing exactly when the own LSP is missing; otherwise PATHS holds exactly the reachable systems, each once, in non-decreasing order, each at its least total metric over all walks, with the next hop of the first settled system that links to it |
| `NextHop.FirstDiscovers` | decision.go:97-112 | a system is first met from ourselves if we list it, otherwise from a system nearest to us among those that list it |
| `NextHop.RecordedHop` | decision.go:106-111 | the next hop recorded for a system is the adjacency with a neighbour at the start of such a chain of discoveries |
| `NextHop.HopCorrectIff` | decision.go:97-111 | for any metrics, in a graph without ties the recorded next hop starts a shortest path exactly when the neighbour the graph says the system is met through does |
| `NextHop.HopCorrectWithTies` | decision.go:97-111 | with ties, it is right if every neighbour the system may be met through starts a shortest path, and wrong if none does |
| `NextHop.TableCorrectIff` | decision.go:116-204 | no recorded next hop is wrong if discovery follows shortest paths, and without ties only then |
| `NextHop.TightIsShortest` | decision.go:97-111 | discovery follows shortest paths, ties or not, if every possible discoverer is on a shortest path |
| `NextHop.UniformIsTight` | decision.go:97-105 | with equal metrics every possible discoverer is |
| `NextHop.UniformNextHops` | decision.go:88-114 | with equal metrics every recorded next hop is an UP adjacency that starts a shortest path, and its neighbour is one metric closer |
| `UnequalMetrics.MeetsThrough2` | decision.go:97-112 | in the example every chain of discoveries from 1 to 9 starts at 2 |
| `UnequalMetrics.ForwardingLoop` | decision.go:101-103 | for destination 9, router 1 records the adjacency with 2 and router 2 the one with 1, although no shortest path of either starts there |
| `LoopExample.GraphIsExample` | decision.go:116-158 | the concrete LSPs and a router's adjacencies describe exactly that example |
| `LoopExample.RunLoop` | decision.go:101-103 | computeSPF called on these LSPs at routers 1 and 2, with adjacencies of metric 10, returns tables in which each forwards packets for 9 to the other |
| `Topology.ReadLsps` | decision.go:135-135 | reads the stored LSPs out of the heap tree in key order |
| `Topology.ListingLists` | decision.go:135-135 | these are exactly the LSPs of the database |
| `Topology.RunSpf` | decision.go:116-150 | a router's SPF run on its own tree and interfaces meets the specification of computeSPF |
| `Topology.InsertPaths` | decision.go:206-212 | the insert loop turns the topology tree's map into the old map updated path by path |
| `Topology.TopoAgrees` | decision.go:206-212 | afterwards a settled system's key finds its triple and any other key what it found before |
| `Topology.UpdateTopology` | decision.go:116-215 | SPF on the router's own tree and the inserts after it: on the heap, AvlSearch at a system's key then finds its settled triple if the system is reachable, and otherwise what it found before; without the own LSP nothing changes |
| `Routers.FloodNewLsp` | update.go:95-120 | over all interface objects: SRM cleared on the receiving one, set on every other, nothing else touched |
| `Routers.FloodEverywhere` | update.go:427-437 | SRM set on every interface, nothing else touched |
| `Routers.GetNeighborTLV` | update.go:317-341 | the append loop builds a TLV of type 2 with a zero byte and then, for each interface that is UP, metric 10, neighbour and a zero byte at the place given by the number of UP interfaces before it, and no more; the length byte wraps |
| `Routers.GetIPReachTLV` | update.go:289-315 | the nested append loops build a TLV of type 128 with, for each route that is not nil, address, mask and metric 10 at the place given by the number of such routes before it, and no more; the length byte wraps |
| `Adverts.AllRoutesAt` | update.go:296-312 | the routes advertised are the routes that are not nil, each at its place |
| `Adverts.UpIdsAt` | update.go:326-339 | the neighbours advertised are those of the UP adjacencies, each at its place |
| `Adverts.RoutesDecoded` | update.go:343-359 | decoding that TLV gives each route that is not nil at its place, as long as there are at most 21 |
| `Adverts.OwnTlvsAdvertise` | update.go:412-415 | the two TLVs of the local LSP say exactly that of the interfaces |
| `Routers.Interface.constructor` | main.go:231-247 | a new interface has a NEW adjacency and no flood states |
| `Routers.Router.constructor` | update.go:91-93 | a new router has an empty database and counter 0 |
| `Routers.Router.UpdateInput` | update.go:122-163 | the in-place handler on tree and interfaces stores and floods an LSP exactly if its key is new or its sequence number greater than the stored one, triggers SPF exactly then, and changes nothing otherwise |
| `Routers.Router.SendOne` | update.go:175-192 | one flood state: if SRM is set and the adjacency is UP, a frame to the multicast address from the interface's MAC with the serialized stored LSP, and a cleared flag; otherwise nothing |
| `Routers.Router.UpdateScan` | update.go:165-197 | the loop over the flood states is a sequence of allowed sends of such frames with the stored LSPs, after which nothing remains to be sent on the interface |
| `Routers.Router.GenerateLocalLsp` | update.go:403-438 | the counter one further, SRM set for the own LSP on every interface, and the LSP stored for the own key carries the counter and advertises the interfaces as they are; nothing else changes |
| `Routers.Router.HelloSend` | hello.go:128-185 | exactly while the adjacency is not UP, a frame goes out with exactly the bytes of a hello of this router without TLVs, which the receiving side decodes as its greeting |
| `Routers.Router.HelloReceive` | hello.go:187-257 | by source, TLVs and MAC: an own hello and a reply that names another MAC change nothing; a hello without TLVs moves NEW to INIT and is answered with TLVs 6 and 132; a reply that names our MAC brings the adjacency UP with the sender, metric 10 and its address, and generates an LSP |
| `NodeSteps.HelloCases` | hello.go:209-255 | the same of the value-level handler that the network steps use |
| `NodeSteps.OnlyOurMacBringsUp` | hello.go:211-251 | the adjacency comes UP, and the counter moves, exactly on a hello from another system whose first TLV is our MAC |
| `NodeSteps.GenerateLocalIs` | update.go:403-438 | what the value-level generation changes, and nothing else |
| `Routers.Router.ReceivePdu` | ethernet.go:245-270 | one received frame, on the heap: dropped without effect if byte 14 is not 0x83, byte 18 neither 0x0F nor 0x12, or a hello not to the multicast address; otherwise the effect of the hello or the LSP handler, with the bytes of the reply |
| `NodeSteps.OwnIsNewest` | update.go:147-157 | no copy of a router's own LSP is newer than the one it stores, so its own LSP is never overwritten from outside |
| `Safety.InitialInv` | main.go:203-268 | the invariant holds at boot |
| `Safety.StepKeeps` | update.go:95-197 | every timer and every delivery keeps the invariant: for each port and stored LSP, SRM is set, or a copy at least as new is in flight to the peer, or the peer has one; every LSP is logged, owned, has matching length bytes and lists only ports that are UP; own LSPs are current; UP adjacencies name the peer |
| `Safety.RunKeeps` | update.go:95-197 | so does every run |
| `Convergence.Provenance` | update.go:137-158 | in every run, every LSP stored or in flight was made by the owner of its ID with a number within the owner's counter, and equal key and number mean equal content |
| `Convergence.LocalConsistency` | update.go:175-190 | in every run, each interface has flood states for exactly the keys stored (the Unable to find branch is dead), the own LSP carries the current counter and advertises exactly the UP adjacencies and the routes that are not nil |
| `Convergence.RunEvolves` | update.go:147-157 | no run lowers a stored sequence number, removes a key, lowers a counter or takes an adjacency down, anywhere |
| `Convergence.PeersAgree` | update.go:95-197 | in a quiescent state the two ends of a link UP at both ends hold identical databases |
| `Convergence.DatabasesConverge` | update.go:95-197 | in every run, once no UP interface has SRM set and no LSP is in flight, routers joined by links UP at both ends hold identical databases, with each other's current LSP, which advertises that router's interfaces as they are |
| `Termination.FloodingTerminates` | update.go:136-191 | from any reachable state at most Work(s) sends and receipts of LSPs happen before another local generation, whatever hello timers and hellos come in between |
| `Termination.StepMeasure` | update.go:136-191 | the measure behind it: sends and receipts of LSPs lower it, a generation raises it by at most twice the number of interfaces, and hellos by what they weigh |
| `Termination.StuckIffQuiescent` | update.go:175-191 | flooding has nothing left to do exactly in the quiescent states |
| `Termination.FloodingFinishes` | update.go:136-191 | from every reachable state some run of sends and receipts alone reaches quiescence |
| `Handshake.UpMeansHeard` | hello.go:234-251 | in every run, UP at one end means the other end took a greeting from it and is past NEW, and the recorded system ID and address are that end's |
| `Handshake.RunNeverBackwards` | hello.go:225-241 | no run moves an adjacency backwards |
| `Handshake.HandshakeCompletes` | hello.go:167-257 | from every reachable state an end that is not UP comes UP by greeting, reply and receipt, whatever the state of the other end, at the cost of at most one new LSP per router |
| `Bootstrap.BecomesCalm` | hello.go:167-257 | from every reachable state with room in the counters, some run brings every cabled link UP at both ends and flooding to rest |
| `Bootstrap.EveryRunIsBounded` | update.go:136-191 | in every run, hellos and generations included, the LSP sends and the deliveries are bounded by a potential of the first state and the number of greetings sent |
| `Bootstrap.OnceUpRunsEnd` | hello.go:176-178 | once every cabled port is UP, every run makes at most Potential(s) more sends and deliveries |
| `Bootstrap.EndedIffCalm` | hello.go:167-257 | nothing can happen any more exactly in the calm states with every cabled link UP at both ends and nothing in flight, so every run that cannot be continued ends there |
| `Forwarding.SpfMayRun` | decision.go:116-150 | in every reachable state without parallel links the preconditions of the SPF run hold |
| `Forwarding.TableIffGenerated` | decision.go:136-147 | computeSPF finds the own LSP, and gives a table, exactly at routers that have generated one |
| `Forwarding.LinkIsUpPort` | update.go:317-341 | in every reachable state every link in a router's graph, also from an outdated LSP, is a port that is UP now |
| `Forwarding.UpPortIsLink` | update.go:317-341 | an UP port is a link, leading to the router plugged in, at metric 10, in the graph of every router that holds its router's present LSP |
| `Forwarding.Pushed` | update.go:165-197 | when flooding is quiet, what a router stores has reached, at least as new, every router down a path of UP ports |
| `Forwarding.InformedOnwards` | update.go:165-197 | a router that holds the present LSP of every router that reaches d passes this on over each of its UP ports |
| `Forwarding.DistancesAgree` | decision.go:116-204 | such a router measures exactly the distances to d over all ports that are UP in the network |
| `Forwarding.NextHopIsCloser` | decision.go:154-204 | in every quiescent state, the far end of the recorded next hop is again informed about the destination and records it exactly one metric closer in its own table |
| `Forwarding.HopIsUnique` | decision.go:154-204 | a router's table forwards packets for a destination to one router only |
| `Forwarding.LoopFreeForwarding` | decision.go:154-204 | in every run, once flooding is quiet and with fresh SPF, following next hops from any router reaches any router it is joined to, along the only route the tables allow, without revisiting a router, each hop one metric closer, whatever the state of other adjacencies |
| `Forwarding.ChainJoins` | decision.go:154-204 | routers linked by a chain of links UP at both ends are joined in this sense |
| `WireNetwork.EnabledTogether` | ethernet.go:245-270 | an event may happen among messages exactly if its counterpart may among frames |
| `WireNetwork.StepsMatch` | ethernet.go:245-270 | a step on messages and its counterpart on frames lead to the same routers, and to frames that are exactly the messages in flight |
| `WireNetwork.WireRunIsRun` | update.go:187-187 | every run over the wire is a run of the message network, event for event |
| `WireNetwork.RunIsWireRun` | update.go:187-187 | and the other way round |
| `WireNetwork.ScanIsRun` | update.go:165-197 | the sends of one pass of isisUpdate, as the heap method delivers them, are a run of the network that adds exactly the frames of the pass to the wire, addressed to the far end |
| `WireNetwork.FramesAreSafe` | ethernet.go:51-81 | in every run every frame in flight decodes where it arrives, to a hello or an LSP, and a confirming hello has its second TLV |
| `WireNetwork.WireConvergence` | update.go:95-197 | convergence of the databases in every run over the wire |
| `WireNetwork.WireForwarding` | decision.go:154-204 | loop-free forwarding between joined routers in every quiescent state of every run over the wire |
| `WireNetwork.WireBecomesCalm` | hello.go:167-257 | from boot some run over the wire brings every link UP at both ends and flooding to rest |

## Left out

- Raw sockets, MAC lookup, the read buffer and its size, frame padding and the check for own frames (ethernet.go:87-243): I/O, replaced by lossless two-ended links that deliver in any order.
- Route installation through netlink and prefix lookup for it (decision.go:217-238, update.go:361-378), and interface discovery (main.go:203-268): foreign calls; interfaces and routes are given.
- The gRPC server, its generated code, scripts, Docker files, logging and all `String` functions.
- Lock-level interleaving: each handler is one atomic step, including generateLocalLsp, which bumps its counter without a lock.
- Freshness of the topology database: local generation does not trigger SPF and old entries are never removed, so SPF is a call on a given database and fresh tables are a hypothesis of `Forwarding.LoopFreeForwarding`.
- Malformed TLV buffers: parseTLVs and getNeighbors have no error path and would index out of range, so `TlvList.WellFormed`, `Lsps.Readable` and `Wire.Decodable` are preconditions.
- Timers, ageing, retransmission, checksums, pseudonodes, LSP fragments, change of system ID and restart: not implemented or not handled by the source. A router without a system ID is not modelled.
- `AvlUpdate` and `AvlPrint`: unused by the protocol; they would add easy members.
- Flood states are maps from key to SRM: the LSP ID, the copy of the key and the SSN flag are never read.
- Network.Cabled: routers with more than 23 links or 21 routes are excluded; `Wire.LocalLspSurvivesIff` shows that their LSP, once complete, is not received as it was sent.
- Network.Apply: messages travel between routers as values; `WireNetwork` carries frames and takes the same steps.
- WireNetwork.WireEnabled: a frame that cannot be decoded would make the source index out of range, so its arrival is not a step; `WireNetwork.FramesAreSafe` shows that no router sends one.
- NextHop.HopCorrectIff: exact where no two systems tie as nearest among those that list a third; with ties the entry depends on the order of the database, and `NextHop.HopCorrectWithTies` bounds it from both sides.
- Spf.Triple: triples and adjacencies are values, so the sharing of one adjacency object between triples and the interface is not captured; the in-place decrease is an update of the list.
- Lsps.Lsp: a stored LSP holds its TLVs as a sequence; the linked list exists only in `TlvList.ParseTLVs` and `TlvList.SerializeTLVs`. Neighbour ID and address of an adjacency that is not UP are zero bytes instead of nil.
- Decision.GetAdjacencies: returns neighbour and metric only; the adjacency the source looks up there is always overwritten before it is used (decision.go:109).
- Decision.ComputeSPF: assumes no parallel adjacencies, as the source does (decision.go:128), one LSP per system, and metrics whose longest sum stays below the uint32 sentinel; `Forwarding.SpfMayRun` shows that these hold in every reachable state of a network without parallel links.
- Routers.Router.HelloReceive: requires a second TLV in a confirming hello, which the source dereferences unchecked; `WireNetwork.FramesAreSafe` shows that every confirming hello sent has one.
- Forwarding.LoopFreeForwarding: supposes one link between two routers, the assumption stated at decision.go:128, and that SPF has run since the database last changed.
- Where comments and code differ the code is followed: update.go:102 speaks of setting SRM where the code clears it, update.go:302-304 and 352 put the metric first in a prefix entry where the code writes address, mask, metric, and avl.go:81 says insert changes nothing for a present key although overwrite does.
