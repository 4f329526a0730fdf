# Verified model of the routing daemons

A Dafny model of five parts of the layer 3 daemons, with proofs of what they keep and what they compute: the BGP decision
process and local RIB (`bgp/rib`), the BGP UPDATE codec and its splitting into messages (`bgp/packet`), the BGP state
machine and collision resolution (`bgp/fsm`), BFD sessions (`bfd/server`) and the ARP cache (`arp/server`).
`dafny verify dfyconfig.toml` checks the whole project.

What the source updates in place is a class or an array here, and each of its methods is proved against a function or an
invariant; what these functions and invariants are for is proved as lemmas. One handler call is one atomic step. A map
loop visits its keys in any order, so every result about one holds for every order Go may choose.

| files | contents |
|---|---|
| Paths, Stages, Cascade, Preference, CascadeOrder, Ecmp | the tie-break cascade of section 9.1.2.2 of RFC 4271, stage by stage in place, what it keeps in terms of the attributes, what the order of its candidates changes, and equal-cost groups |
| VisitOrder, Walks | the orders in which a selection meets its candidates, and what they change |
| Routes, RouteManager, IdAllocator, PathStore, Selection, Destination | the paths of one prefix: stored, published, installed, mirrored into the forwarding plane |
| RouteList, LocRib | the paged list of destinations, and prefix counts |
| NlriCodec, Update, UpdateDecode, AsPath | encodings octet by octet, decoders and round trips |
| UpdatePacking, PackingLengths, UpdateStream | the split into messages of at most 4096 octets, and what a peer reads and applies |
| PeerFsm, FsmManager | section 8.2.2 and 6.8 of RFC 4271 |
| BfdControl, BfdSession, BfdProtocol | section 4.1, 6.8 and 6.2 of RFC 5880 |
| ArpCache | the cache, its ageing and its hardware mirror |
| Runs | short runs from a new destination or session to states that the departures below speak of |

What a function computes is pinned by a law that does not use it: the order of the decision process by the attributes
(`Preference.BeatsIsBetter`), encodings by their octets (`NlriLayout`, `MessageLayout`, `MpReachLayout`, `SegmentLayout`,
`PacketLayout`), and the state machines by tables written after the standards (`PeerFsms.FollowsTheStandard`,
`PeerFsms.SpeaksTheStandard`, `BfdSessions.FollowsTheStandard`).

## Where the code departs from its purpose

The model follows the code. Where a property fails, a lemma gives the input or says exactly when it holds.

- `bgp/rib/destination.go:743` advances the index where every other stage resets it, so that a beaten path can win
  (`Cascade.UnresetIndexPicksABeatenPath`). A selection meets its candidates peer by peer in any order, behind the path
  chosen before while the source of that one is the best (`Walks.WalkIsVisit`, `Walks.VisitIsWalk`). No beaten path
  survives any such visit if and only if the visits are harmless (`VisitOrder.NoBeatenPathSurvivesVisits`), and the same
  condition says when all visits leave the same survivors (`VisitOrder.VisitsAgree`). Of the candidates the AS stage leaves:
  - the path chosen before is among them and does not lag in origin: harmless;
  - it is among them and lags: harmless exactly when every other laggard loses in the later stages to a path of the lowest
    origin;
  - otherwise: harmless exactly when each laggard loses so that can come behind another one, which is of the same peer or
    of a peer with no path of the lowest origin left.

  A path chosen before that is still a candidate and unbeaten is chosen again whatever the order
  (`Walks.WinnerIgnoresOrder`). Over all orders at all, not only those of visits, the condition is that at most one
  candidate lags or each that lags loses so (`CascadeOrder.NoBeatenPathSurvives`, `CascadeOrder.OrderDoesNotMatter`); with
  one candidate of each peer and none chosen before it is the same (`VisitOrder.OneOfEachPeer`). In one given order the
  stage itself is right if and only if the first candidate already has the lowest origin (`Stages.UnresetStageExact`);
  otherwise removed and kept paths are together more than were given (`Cascade.NothingIsLost`, `Preference.LosesNothing`).
- `bgp/rib/destination.go:684` starts the AS count at 4096: if no candidate is within it, all are kept and all are set aside.
  A path that long fits a message, since segment lengths are computed in eight bits on decode: an attribute of 322 octets
  decodes to 4224 numbers (`AsPaths.ShortAttributeLongPath`).
- Addresses of different lengths compare as equal, so the last stage ignores the order if and only if all addresses have
  one length or all of them tie (`CascadeOrder.AddressStageIgnoresOrder`). The code never mixes lengths: every neighbour
  address comes from `net.ParseIP` or the address `net.ParseCIDR` returns, 16 octets each (`bgp/utils/interfaces.go:121`,
  `bgp/server/server.go:2281`, `bgp/rpc/listener.go:813`), and is taken away only after the neighbour's paths are removed
  (`bgp/server/server.go:2320`).
- An empty destination can stay in the RIB: it leaves only when its last withdrawal made a selection due
  (`Destinations.Destination.WithdrawPath`). It stays behind when the chosen path is withdrawn
  first and an unreachable one after it (`DestinationRuns.EmptyDestinationStays`), and when a neighbour that goes takes only
  paths that were not installed (`Destinations.Destination.WithdrawPeer`).
- A replaced path stays in `pathRouteMap` and its out path id is never given back (`DestinationRuns.ReplacedStays`,
  `Destinations.Destination.StoredAndFreeIdsFill`). It also stays installed until the next selection, and none is due
  when the new path comes from a worse source than the chosen one (`DestinationRuns.ReplacedStaysInstalled`).
- A path installed already that becomes the best one is not marked best (`DestinationRuns.BestIsUnmarked`; the clause on
  `Crowned` in `Selected`).
- A withdrawn prefix is skipped when the message announces one with the same address and path id, whatever its length
  (`LocRibs.LocRib.ProcessRoutes`).
- A cloned MP_REACH_NLRI attribute has a four-octet header even where the original had three, so a piece is one octet
  too long (`PackingLengths.ThreeOctetHeaderOverflows`) if and only if the prefixes fill one to the brim
  (`PackingLengths.MpShortExactly`).
- A peer loses the link-local address of an IPv6 next hop, since `bgp/packet/mpbgp.go:176` makes the decoder of the IPv4
  family; an UPDATE comes back from its message if and only if it carries none (`UpdateDecoding.MessageRoundTrip`).
- The partial bit is refused on the optional transitive attributes the code knows, and an unknown type code below 19 may pass
  as well-known (`UpdateDecoding.FlagsMean`).
- An attribute is put before the last one with a greater code, not the first, so the list does not stay sorted
  (`UpdatePacking.InsertKeepsOrder`).
- AS_PATH segment lengths are computed in eight bits on decode, and a segment that cannot be decoded ends the path without
  an error (`AsPaths.PathRoundTrip`); where the first segment over the limit has 127 or 255 two-octet numbers the decoder
  does not end (`AsPaths.EndlessPath`).
- A number over 16 bits is stored as 23456 in a new two-octet segment but loses its upper half in an existing one
  (`AsPaths.AsPath.PrependAS`).
- Only octets 0 and 3 of a BGP identifier take part in collision resolution (`FsmManagers.SpeakersAgree`). Where the others do
  not mislead it (`FsmManagers.DecidesAsTheStandard`) the connection opened by the speaker with the larger identifier stays
  (`FsmManagers.LargerSpeakerKeeps`).
- An event out of turn in OpenConfirm is answered by a Cease instead of a Finite State Machine Error
  (`PeerFsms.SpeaksTheStandard`), and the events of a delayed OPEN are ignored (`PeerFsms.FollowsTheStandard`).
- A machine that falls to Idle can connect again in the direction the other machine has. The table keeps its invariant
  until two connections of one direction meet (`FsmManagers.FsmManager.MachineEvent`); then both machines can be
  established, or the established one is closed (`FsmManagers.BothEstablished`, `FsmManagers.OneDirection`).
- The BFD buffer keeps Poll set after a send exactly when that send took the configured intervals up and one of them is the
  start-up interval (`BfdRuns.PollStays`). Intervals configured while both ends are up are offered exactly when the buffer
  is taking them up just then or holds the same ones already (`bfd/server/bfdSession.go:331-336`,
  `BfdRuns.NewIntervalsStayBehind`). Both conditions are clauses of `BfdSessions.BfdSession.SendPeriodic`.
- The BFD diagnostic is not guarded by a dirty flag: a packet carries the session's exactly when a flag was set or the buffer
  held the same (`BfdSessions.BfdSession.SendPeriodic`, `BfdRuns.OldDiagnosticIsSent`).
- A peer's AdminDown leaves a BFD session up (`BfdProtocol.PeerAdminDownKeepsUp`), and a packet from before a restart can
  bring one up (`BfdProtocol.OldPacketBringsUp`). Were such packets refused, the peer would have been in Init or Up itself
  since (`BfdProtocol.RecentRunsHear`), though possibly on a packet of this side's earlier life
  (`BfdProtocol.EarlierLifeCounts`).

## Model

| member | source | states |
|---|---|---|
| Stages.FilterStageExact | bgp/rib/destination.go:631-900 | when some candidate reaches the initial bound, a stage with the index reset to 1 keeps exactly the candidates with the smallest key, in order and as often as given, and otherwise all; what it keeps and sets aside together is what it was given if and only if one reaches the bound |
| Stages.UnresetStageExact | bgp/rib/destination.go:728-766 | with the index advanced instead, as line 743 has it, the stage keeps exactly the minima, and conserves its candidates, if and only if the first candidate is already a minimum; slot 0 is a minimum in any case |
| Stages.CompareAddressIsNumeric | bgp/rib/destination.go:902-917 | the octet-by-octet walk orders two addresses of one length as the numbers they spell |
| Stages.PreferExternalSelects | bgp/rib/destination.go:768-804 | overwriting internal candidates by the last one leaves exactly the external ones when there is one, each as often as given, and loses none |
| Stages.LowestAddressSelects | bgp/rib/destination.go:919-960 | comparing every candidate with slot 0 while slot 0 changes leaves exactly the candidates with the lowest address, for addresses of one length |
| Stages.LowestAddressConserves | bgp/rib/destination.go:919-960 | whatever the addresses, kept and removed candidates together are the candidates given |
| Stages.FilterInPlace | bgp/rib/destination.go:631-766 | the loop over the slice leaves in the array what the stage function keeps and returns what it sets aside |
| Stages.DropInternalInPlace | bgp/rib/destination.go:768-793 | the in-place loop computes the split whose kept part holds no internal candidate |
| Stages.LowestAddressInPlace | bgp/rib/destination.go:919-960 | the in-place loop computes the split proved to hold the lowest addresses |
| Preference.BeatsIsBetter | bgp/rib/destination.go:1001-1082 | what the seven keys compare, in the attributes themselves: of two candidates one beats the other if and only if it has the higher preference, else fewer ASes, else the lower origin, else came from an external peer and the other did not, else the lower BGP id, else the shorter cluster list, else the smaller octet where the peer addresses first differ |
| Preference.SurvivorsAreLexMinima | bgp/rib/destination.go:1001-1082 | the cascade leaves exactly the candidates than which none is better in that sense, each as often as given, when a candidate of the highest preference has at most 4096 ASes and line 743 is repaired or the first candidate of the highest preference and fewest ASes has the lowest origin of these; for the line as written see NoBeatenPathSurvives |
| Preference.UnbeatenIsBest | bgp/rib/destination.go:1001-1082 | so wherever another row speaks of unbeaten candidates, these are the ones than which none is better |
| Preference.SettledMeans | bgp/rib/destination.go:728-766 | as written, the origin stage does what it is for in a given order if and only if the first candidate of the highest preference and fewest ASes has the lowest origin of these |
| Preference.SharersAreTied | bgp/rib/destination.go:1001-1082 | which candidates share the load: of those level in preference, ASes and origin, all when both kinds of multi-path are on, the external ones when only external multi-path is, all when only internal multi-path is and none of them is external; exactly these, each as often as given, if there are two of them, and none otherwise |
| CascadeOrder.NoBeatenPathSurvives | bgp/rib/destination.go:1001-1082 | with line 743 as written, over all orders of a set of candidates: only paths that no other one beats survive, if and only if, of the candidates the AS stage leaves, at most one lags in origin or each that lags loses in the later stages to one that does not; for the orders a selection can meet see VisitOrder |
| CascadeOrder.OrderDoesNotMatter | bgp/rib/destination.go:1001-1082 | and all orders leave the same survivors if and only if that holds |
| CascadeOrder.ChoiceIgnoresOrder | bgp/rib/destination.go:505-531 | the path in front of the survivors is the same in all orders if that holds and one path is unbeaten, and only if one is; exactly then when no path that lags ties in all later keys with one that does not |
| CascadeOrder.BestIsChosen | bgp/rib/destination.go:505-531 | and no candidate is better than the path chosen, in whatever order they come, while that holds |
| VisitOrder.VisitIsRight | bgp/rib/destination.go:463-531 | while the visits are harmless, the survivors of each are exactly the candidates that no other one beats |
| VisitOrder.NoBeatenPathSurvivesVisits | bgp/rib/destination.go:463-531 | over the orders a selection can meet, peer by peer behind the path chosen before: only unbeaten paths survive if and only if the visits are harmless, that is, of the candidates the AS stage leaves: the path chosen before is among them and does not lag in origin, or it lags and every other laggard loses later on, or it is not among them and each laggard loses that can come behind another before any of the lowest origin |
| VisitOrder.VisitsAgree | bgp/rib/destination.go:463-531 | all these orders leave the same survivors if and only if the visits are harmless |
| VisitOrder.VisitsChoose | bgp/rib/destination.go:463-531 | the path chosen before is chosen in all of them when it is unbeaten; if not, all choose the same when the visits are harmless and one path is unbeaten, and only if one is; exactly then when no path that lags ties in all later keys with one that does not |
| VisitOrder.OneOfEachPeer | bgp/rib/destination.go:463-503 | with one candidate of each peer and none chosen before, the visits are harmless if and only if all orders are |
| Walks.WalkIsVisit | bgp/rib/destination.go:463-503 | whatever order the maps yield peers and paths in, the candidates are the same, the path chosen before is in front while its source is the best, and the others come peer by peer |
| Walks.VisitIsWalk | bgp/rib/destination.go:463-503 | and every such order of the candidates is met for some order of the maps |
| Walks.WinnerIgnoresOrder | bgp/rib/destination.go:463-531 | so over all orders of the maps: which path is chosen does not depend on them when the one chosen before is still a candidate and unbeaten; if not, when the visits are harmless and one path is unbeaten, and only if one is; exactly then when no path that lags ties in all later keys with one that does not |
| Walks.WalksChooseBest | bgp/rib/destination.go:463-531 | while the visits are harmless, no candidate is better in its attributes than the path that is chosen, whatever order the maps yield |
| CascadeOrder.AddressStageIgnoresOrder | bgp/rib/destination.go:902-960 | the last stage keeps the same candidates in every order if and only if all addresses have one length or all of them tie |
| Cascade.SettledOrdersAgree | bgp/rib/destination.go:463-503 | two orders in which line 743 is repaired or has nothing to reset leave the same survivors, each as often |
| Preference.LosesNothing | bgp/rib/destination.go:1001-1082 | survivors and pruned lists together are the candidates as a multiset if and only if one candidate alone has the highest preference, or one of these has at most 4096 ASes and the origin stage meets its purpose |
| Cascade.NothingIsLost | bgp/rib/destination.go:1001-1082 | the same by the stages, and otherwise there are more of them, never fewer |
| Cascade.CascadeMembers | bgp/rib/destination.go:1001-1082 | the survivors are candidates and not none, and when paths tie for load sharing the survivors are among them |
| Cascade.UnresetIndexPicksABeatenPath | bgp/rib/destination.go:743 | origins 2, 1, 0: the cascade as written picks a path that another candidate beats, and the outcome depends on the order |
| Cascade.MixedAddressLengthsDependOnOrder | bgp/rib/destination.go:902-960 | addresses of two lengths on which the last stage depends on who sits in slot 0; the code writes none of 4 octets |
| Ecmp.GetEcmpPaths | bgp/rib/destination.go:962-982 | one group for each next hop of the tied paths, holding all of them, in whatever order the map yields |
| Ecmp.RemoveAndPrependInPlace | bgp/rib/destination.go:373-401 | the two copies within the slices, or the append, leave the groups with the item at the very front, also for an item in no group |
| Ecmp.PrependArranges | bgp/rib/destination.go:373-401 | when the best path is among the tied ones, or nothing tied, every group survives the move: one next hop each, no two alike, together exactly the tied paths |
| Ecmp.CalculateBestPath | bgp/rib/destination.go:1001-1082 | survivors, pruned lists and equal-cost groups of the cascade, computed in place; the survivors are the candidates than which none is better, under the conditions of Preference.SurvivorsAreLexMinima |
| IdAllocators.IdAllocator.GetNextId | bgp/rib/destination.go:128-139 | hands out an id that is not live, the last one freed first; live and free ids partition the range |
| IdAllocators.IdAllocator.ReleaseId | bgp/rib/destination.go:141-148 | a live id becomes free, or the range shrinks; the partition is kept |
| IdAllocators.IdAllocator.LiveAndFreeFillTheRange | bgp/policy/locRibEngine.go:58-78 | as many ids are live and free as the range has, starting at 1 for a destination and at 0 for the policy engine |
| PathStore.PutLookup | bgp/rib/destination.go:228-276 | storing a path under a peer and path id changes that key only |
| PathStore.DropLookup | bgp/rib/destination.go:313-316 | dropping a path, and its peer with the last one, changes that key only |
| PathStore.SlotsSwap | bgp/rib/ipv4Route.go:83-89 | removing a slot by moving the last one into it does the same to the list of keys |
| PathStore.SlotsCover | bgp/rib/ipv4Route.go:67-89 | every stored key has exactly one published slot and every slot one stored key |
| PathStore.SlotsCount | bgp/rib/ipv4Route.go:67-89 | as many slots as stored paths |
| Destinations.Destination.constructor | bgp/rib/destination.go:68-88 | an empty destination satisfies the invariant |
| Destinations.Destination.AddOrUpdatePath | bgp/rib/destination.go:228-276 | keeps the invariant of all four maps; the path is stored under the key, takes the slot of what it replaces or a new last one; a replaced path stays on file for good; a selection becomes due exactly when the source says |
| Destinations.Destination.RemovePath | bgp/rib/destination.go:278-322 | keeps the invariant; the key is gone, the last slot moves into the freed one, the id goes back, and a selection becomes due exactly when an installed or chosen path went |
| Destinations.Destination.RemoveAllPaths | bgp/rib/destination.go:324-337 | exactly the paths of one peer go, in whatever order the map yields them, and a selection becomes due when one of them was installed |
| Destinations.Destination.Candidates | bgp/rib/destination.go:450-503 | the candidates are what a walk over the stored paths yields: those of the best source that are usable or chosen before, once each, with the path chosen before in front while its source is the best |
| Selection.ConsiderKeeps | bgp/rib/destination.go:478-500 | one more path, of a better, an equal or a worse source |
| Selection.CandidatesByType | bgp/rib/path.go:55-70 | the candidates by route type: aggregates, connected, default, static and interior routes if there are any, else those learned from peers, else all others |
| Selection.FindInstalled | bgp/rib/destination.go:532-555 | the best path itself is looked for in the first group, any installed path in the others |
| Selection.PicksServe | bgp/rib/destination.go:532-584 | one path is picked from each group, no two with one next hop; every tied next hop is served, and a pick never displaces an installed path that tied with its next hop |
| Selection.MirrorAdd | bgp/rib/destination.go:616-627 | telling the route manager of one more path keeps it in step with the installed paths; Create only when it holds nothing |
| Selection.MirrorRemove | bgp/rib/destination.go:596-606 | taking one path out keeps it in step |
| Destinations.Destination.InstallGroups | bgp/rib/destination.go:532-581 | over all groups: what is installed, which actions are pending, what is still to be programmed, whether the best route is marked, and the action reported |
| Destinations.Destination.RemoveStale | bgp/rib/destination.go:596-614 | exactly the installed paths without a pending action go, and the route manager hears of each that was programmed |
| Destinations.Destination.SelectRouteForLocRib | bgp/rib/destination.go:432-629 | keeps the invariant; nothing happens unless a selection is due; then the chosen path is the winner of the cascade over the candidates of a walk, the installed set serves it and every tied next hop without displacing installed ties, and the action tells what happened to the best route; without a candidate nothing stays installed. That the winner is a best candidate is Walks.WalksChooseBest, and what reaches the forwarding plane is ForwardingPlaneMirrors, which holds of any destination that satisfies the invariant |
| Destinations.Destination.WithdrawPath | bgp/rib/rib.go:206-255 | a withdrawal and its selection: a destination left empty leaves the RIB if and only if a selection was due or the path withdrawn was installed or chosen |
| Destinations.Destination.WithdrawPeer | bgp/rib/rib.go:483-494 | a neighbour that goes: a destination left empty leaves the RIB if and only if a selection was due or one of its installed paths went |
| Destinations.SameCandidates | bgp/rib/destination.go:463-503 | two visits of the stored paths, in whatever orders the maps yield, find the same candidates |
| Destinations.Destination.PublishedExactly | bgp/rib/destination.go:228-337 | after any run: one published slot for each stored peer and path id, no two for one, none when the destination is empty |
| Destinations.Destination.SlotKnowsItsIndex | bgp/rib/destination.go:301-311 | after any run: slot i maps through PathInfoRouteMap to a route whose index is i, and shows the path id its path came with and its next hop |
| Destinations.Destination.StoredAndFreeIdsFill | bgp/rib/destination.go:128-148 | after any run: no two stored paths share an out id, and the ids of stored paths and the free ids account for all ids handed out if and only if no path was ever replaced |
| Destinations.Destination.ForwardingPlaneMirrors | bgp/rib/destination.go:505-628 | after any run: replaying the Create, add and remove calls leaves exactly the next hops of the installed paths whose route type is EGP, aggregate or none of the known ones, no two of which share one; connected, default, static and interior routes never reach it; a call never creates twice, adds what is there or removes what is not |
| Destinations.Destination.FlagsFollowInstallation | bgp/rib/destination.go:565-609 | after any run: a route is marked multi-path exactly when its path is installed, and only the route last chosen may be marked best |
| DestinationRuns.EmptyDestinationStays | bgp/rib/rib.go:206-255 | a chosen path is withdrawn and then an unreachable one: the destination is empty and does not leave |
| DestinationRuns.FirstPathIsProgrammed | bgp/rib/destination.go:556-627 | the first path of a prefix is chosen, and its next hop is programmed unless it is a route of the router itself that is no aggregate |
| DestinationRuns.ReplacedStays | bgp/rib/destination.go:228-276 | a path replaced under its peer and path id stays on file and installed |
| DestinationRuns.ReplacedStaysInstalled | bgp/rib/destination.go:228-276 | replaced by one of a worse source than the chosen path, it stays installed and no selection is due |
| DestinationRuns.BestIsUnmarked | bgp/rib/destination.go:532-581 | of two paths that share the load the best goes: the other becomes the best and is not marked so |
| RouteLists.RouteList.AddRoute | bgp/rib/rib.go:689-701 | appends, tells the entry its slot and keeps a walk in progress |
| RouteLists.RouteList.RemoveRoute | bgp/rib/rib.go:666-687 | with a walk active only a hole is made, otherwise the last entry takes the slot; every other entry stays, and knows its slot |
| RouteLists.RouteList.Compact | bgp/rib/rib.go:714-736 | compaction keeps exactly the entries that are not nil, moves nothing before the first hole, and tells moved entries their slot |
| RouteLists.RouteList.ResetRouteList | bgp/rib/rib.go:709-737 | no holes are left, no entry is lost, and without the dirty flag nothing moves; holes exist only while the flag is set, the flag only while a walk is active |
| RouteLists.RouteList.PageHolds | bgp/rib/rib.go:780-788 | a page holds each entry with paths among its slots, once |
| RouteLists.RouteList.WalkOn | bgp/rib/rib.go:764-797 | one more page keeps the invariant of the walk |
| RouteLists.RouteList.BulkGet | bgp/rib/rib.go:764-797 | a walk from 0 until 0 comes back returns every entry that kept its paths exactly once, whatever was added and removed between the pages |
| LocRibs.CountedPut | bgp/rib/rib.go:272-283 | one more stored path, one more on the count, within the limit |
| LocRibs.CountedDrop | bgp/rib/rib.go:242-249 | one stored path fewer, one off the count, never below zero |
| LocRibs.LocRib.GetDest | bgp/rib/rib.go:146-166 | a destination is made when there is none; the number of routes follows |
| LocRibs.LocRib.Withdraw | bgp/rib/rib.go:198-262 | the peer's path of the prefix is gone and nothing else; an empty destination goes when the selection reports deletion |
| LocRibs.LocRib.Announce | bgp/rib/rib.go:265-298 | accepted exactly when the path replaces one or the neighbour is below its limit, and then stored; nothing else changes |
| LocRibs.LocRib.ProcessRoutes | bgp/rib/rib.go:192-301 | after a whole message: announced prefixes hold the path unless refused, withdrawn ones that the message does not name again hold none, all others are untouched; each neighbour's count is the number of its stored paths and within its limit |
| LocRibs.LocRib.RemoveUpdatesFromNeighbor | bgp/rib/rib.go:473-505 | exactly the neighbour's paths go from every destination and its count is zero, which is again the number stored |
| LocRibs.LocRib.TakeAway | bgp/baseobjects/neighbor.go:333-335 | the decrement never passes below zero and keeps the count equal to the number stored |
| LocRibs.LocRib.GiveTo | bgp/baseobjects/neighbor.go:329-356 | the increment under its check keeps the count within the limit |
| NlriCodec.NetworkBits | bgp/packet/bgp.go:930-936 | clearing the host bits, bit by bit |
| NlriCodec.PrefixRoundTrip | bgp/packet/bgp.go:892-938 | a canonical prefix decodes from its encoding, whatever follows it |
| NlriCodec.DecodedPrefix | bgp/packet/bgp.go:892-938 | what decodes is canonical and encodes to the octets read with the host bits cleared |
| NlriCodec.NlriRoundTrip | bgp/packet/bgp.go:991-1011 | the same with a path identifier |
| NlriCodec.NlriLayout | bgp/packet/bgp.go:892-1000 | an encoding octet by octet: the path identifier, big-endian, if there is one, the prefix length, and the first octets of the address, as many as the length needs |
| NlriCodec.NlriAccepted | bgp/packet/bgp.go:907-1011 | decoding fails exactly on octets that are cut short or hold a length over that of an address |
| NlriCodec.DecodedNlri | bgp/packet/bgp.go:991-1011 | the same with a path identifier, from the wire |
| NlriCodec.DecodeNlris | bgp/packet/bgp.go:2362-2392 | the loop decodes the list, and fails when an entry fails or the last one passes the length |
| NlriCodec.ListRoundTrip | bgp/packet/bgp.go:2362-2392 | any list of canonical prefixes, plain or with path ids, comes back from its concatenated encodings, whatever follows |
| NlriCodec.DecodedList | bgp/packet/bgp.go:2362-2392 | a decoded list is canonical and encodes to the octets read with host bits cleared, as many as were read |
| NlriCodec.DecodeIsStable | bgp/packet/bgp.go:2362-2392 | what was read, written and read again is the same list |
| Updates.EncodeAttrLen | bgp/packet/mpbgp.go:306-382 | MP_REACH_NLRI takes as many octets as its length bookkeeping says |
| Updates.EncodeSucceeds | bgp/packet/bgp.go:2489-2507 | the encoder accepts a message exactly when the accounted length is at most 4096, and then writes that many octets |
| UpdateDecoding.MessageLayout | bgp/packet/bgp.go:2324-2360 | an accepted message octet by octet: sixteen of 255, its length, type 2, the length of the withdrawn routes and these, the length of the attributes and these one after another, and the announced prefixes |
| UpdateDecoding.MpReachLayout | bgp/packet/mpbgp.go:306-336 | MP_REACH_NLRI octet by octet: flags, type 14, length, address family, subsequent family, next hop field, a zero octet, prefixes |
| UpdateDecoding.FlagsMean | bgp/packet/bgp.go:1060-1128 | the attribute flags accepted are those of section 5 of RFC 4271, except exactly that the partial bit is refused on the optional transitive attributes the code knows and that an unknown code below 19 may pass as well-known |
| UpdateDecoding.DecodeAttributes | bgp/packet/bgp.go:2442-2455 | the loop over the attributes computes the list the decoder is proved about |
| UpdateDecoding.AttrsRoundTrip | bgp/packet/bgp.go:2442-2455 | any list of attributes comes back from its encoding, whatever follows, but for link-local next hops |
| UpdateDecoding.MessageRoundTrip | bgp/packet/bgp.go:2414-2464 | what a peer reads from an accepted message, whatever follows on the connection, is the UPDATE itself if and only if no MP_REACH_NLRI carries a link-local next hop, and in any case the UPDATE without these, and it takes up exactly the message |
| Updates.SayingIsDoing | bgp/packet/bgp.go:2324-2360 | messages whose withdrawals all precede their announcements act on a table as one withdrawal and one announcement of the concatenations |
| UpdatePacking.ConstructMaxSizedUpdatePackets | bgp/packet/helpers.go:1154-1335 | the three loops with their running lengths compute the split |
| UpdatePacking.PackSays | bgp/packet/helpers.go:1154-1335 | the messages withdraw and announce the same prefixes with the same attributes in the same order |
| UpdatePacking.PackKeepsMeaning | bgp/packet/helpers.go:1154-1335 | applied in order to any table the messages have the effect of the update |
| UpdatePacking.ApplyMeans | bgp/packet/bgp.go:2414-2464 | what an update does to a table, prefix by prefix: one announced is reached with the next hop that goes with it and with all the other attributes, one only withdrawn is gone, any other stays as it was |
| UpdatePacking.InsertKeepsOrder | bgp/packet/helpers.go:182-198 | a list of attributes that ascends by code still does with one more if and only if no attribute but the last has a greater code |
| PackingLengths.PlainShortExactly | bgp/packet/helpers.go:1298-1332 | without multi-protocol attributes no message is over 4096 octets if and only if each prefix fits beside all the attributes |
| PackingLengths.MpShortExactly | bgp/packet/helpers.go:1222-1268 | with one MP_REACH_NLRI attribute no message is over 4096 octets if and only if each prefix fits beside all the other attributes and, for a three-octet header, the prefixes laid one after another fill no piece to the brim |
| PackingLengths.BrimsOneLength | bgp/packet/helpers.go:1222-1268 | prefixes of one length fill a piece to the brim if and only if there are enough to fill the first one, or a later one, and they leave nothing of its room |
| PackingLengths.ThreeOctetHeaderOverflows | bgp/packet/helpers.go:769-776 | an attribute received with a three-octet header whose parts fit yields a message of 4097 octets, since the clone has four |
| UpdateStreams.PiecesAreSent | bgp/packet/bgp.go:2495-2499 | the encoder accepts every piece of a split update if and only if the parts fit in that sense |
| UpdateStreams.WireKeepsMeaning | bgp/packet/helpers.go:1154-1335 | end to end: an update whose parts fit, split, encoded, put on a connection, read message by message and applied, has the effect of the update on any table |
| AsPaths.AsPath.PrependAS | bgp/packet/helpers.go:37-72 | puts one number in front of all the others, in a new segment before a set, a full segment or nothing; the attribute's Length stays the sum of its segments'; a number over 16 bits is stored as 23456 in a new two-octet segment and without its upper half in an existing one |
| AsPaths.AsPath.PrependSegment | bgp/packet/bgp.go:1606-1611 | Length stays the sum of the segment lengths |
| AsPaths.AsPath.AppendSegment | bgp/packet/bgp.go:1613-1616 | Length stays the sum of the segment lengths |
| AsPaths.EncodePathLen | bgp/packet/bgp.go:1554-1570 | the segments take as many octets as Length says |
| AsPaths.SegmentLayout | bgp/packet/bgp.go:1221-1281 | a segment octet by octet: its kind, how many AS numbers, and each of these big-endian in two or four octets |
| AsPaths.DecodePathLoop | bgp/packet/bgp.go:1572-1604 | the decoding loop, with its swallowed error and its endless case |
| AsPaths.SegmentRoundTrip | bgp/packet/bgp.go:1269-1298 | one segment comes back, with its length computed in eight bits, which is right if and only if it has at most 126 two-octet or 63 four-octet numbers |
| AsPaths.PathRoundTrip | bgp/packet/bgp.go:1554-1604 | a path comes back from its encoding if and only if every segment is within that limit and an empty one is not the last thing on the wire |
| AsPaths.EndlessPath | bgp/packet/bgp.go:1296 | a path whose first segment over the limit has 127 or 255 two-octet numbers keeps the decoder in its loop, whatever comes before and after |
| AsPaths.ShortAttributeLongPath | bgp/packet/bgp.go:1572-1604 | an attribute of 322 octets decodes to 4224 AS numbers |
| PeerFsms.PeerFsm.constructor | bgp/fsm/fsm.go:837-893 | a machine in Idle satisfies the invariant |
| PeerFsms.PeerFsm.ForConnection | bgp/fsm/fsm_manager.go:310-333 | so does one made for a second connection |
| PeerFsms.PeerFsm.ProcessEvent | bgp/fsm/fsm.go:996-999 | any event in any state keeps the invariant: the connection is set exactly in OpenSent, OpenConfirm and Established, hold and keepalive timers are armed only with it, an armed timer drives every state on (unless hold time 0 was negotiated), a KEEPALIVE is due in OpenConfirm and Established (unless its time is 0), notices alternate and established is outstanding exactly in Established; the next state, the notices, the messages written, the timers and the counter of failures are those of the tables |
| PeerFsms.FollowsTheStandard | bgp/fsm/fsm.go:173-733 | any event leads from any state where section 8.2.2 of RFC 4271 leads, except exactly that the two events of the delayed OPEN are ignored in Connect and Active and that a damped start ends in an attempt; while BFD holds the neighbour down it leads to Active where it would connect |
| PeerFsms.SpeaksTheStandard | bgp/fsm/fsm.go:173-733 | and is answered by the messages and error codes of that section, except exactly that an event out of turn in OpenConfirm is answered by a Cease instead of a Finite State Machine Error |
| PeerFsms.TimersMean | bgp/fsm/fsm.go:173-733 | which events start and stop the connect retry and hold timers |
| PeerFsms.CounterMeans | bgp/fsm/fsm.go:173-733 | starts in Idle and manual stops set the counter of failures back, every other fall raises it but a connection that fails in Connect and a version error before the session is up |
| PeerFsms.OutMeans | bgp/fsm/fsm.go:173-733 | when an attempt to connect is on |
| PeerFsms.PeerFsm.ProcessIdle | bgp/fsm/fsm.go:173-205 | the events in Idle; a damped start arms the idle hold timer only from an idle hold time of 5, 10, 60, 120 or 180 |
| PeerFsms.PeerFsm.ProcessConnect | bgp/fsm/fsm.go:241-297 | the events in Connect |
| PeerFsms.PeerFsm.ProcessActive | bgp/fsm/fsm.go:336-397 | the events in Active |
| PeerFsms.PeerFsm.ProcessOpenSent | bgp/fsm/fsm.go:427-509 | the events in OpenSent |
| PeerFsms.PeerFsm.ProcessOpenConfirm | bgp/fsm/fsm.go:539-621 | the events in OpenConfirm |
| PeerFsms.PeerFsm.ProcessEstablished | bgp/fsm/fsm.go:650-733 | the events in Established |
| PeerFsms.PeerFsm.ChangeState | bgp/fsm/fsm.go:1044-1060 | leave, enter and notice; nested when BFD is down; a closed machine changes no more |
| PeerFsms.PeerFsm.ReceiveOpen | bgp/fsm/fsm.go:1182-1201 | the smaller hold time counts unless it is 1 or 2, with a third of it between KEEPALIVEs, and 0 turns the timer off |
| PeerFsms.PeerFsm.SetPeerConn | bgp/fsm/fsm.go:1290-1308 | a second connection never replaces the first |
| PeerFsms.PeerFsm.ClearPeerConn | bgp/fsm/fsm.go:1310-1326 | both timers stop with the connection |
| PeerFsms.PeerFsm.OutConnected | bgp/fsm/fsm.go:908-919 | an outgoing connection is taken only while one is wanted |
| PeerFsms.PeerFsm.OutFailed | bgp/fsm/fsm.go:921-933 | a failed attempt to connect is an event unless it is stale, and leads where the table says |
| PeerFsms.PeerFsm.InConnected | bgp/fsm/fsm.go:935-938 | an accepted connection is handed to the machine |
| PeerFsms.PeerFsm.ReceivePacket | bgp/fsm/fsm.go:1001-1042 | a message or an error in one is one event |
| PeerFsms.PeerFsm.Command | bgp/fsm/fsm.go:960-968 | a command keeps the invariant and is followed by an automatic start, so that a stop never rests in Idle |
| PeerFsms.PeerFsm.ExpireConnectRetry | bgp/fsm/fsm.go:978-979 | the expired timer is not armed any more when its event is handled, and the invariant holds again after it |
| PeerFsms.PeerFsm.ExpireKeepAlive | bgp/fsm/fsm.go:984-985 | the timer is never armed before the OPEN is accepted; a KEEPALIVE is written and the state stays |
| PeerFsms.PeerFsm.ExpireIdleHold | bgp/fsm/fsm.go:987-988 | the idle hold timer leads where the table says, out of Idle |
| PeerFsms.PeerFsm.Close | bgp/fsm/fsm.go:940-943 | a machine with a connection says so before it lets go, and gives no notice |
| PeerFsms.PeerFsm.BfdStatus | bgp/fsm/fsm.go:970-976 | an open connection survives only BFD coming up; otherwise the machine ends in Active while BFD holds it down, and else in Connect |
| PeerFsms.PeerFsm.ExpireHold | bgp/fsm/fsm.go:981-982 | an expired hold timer ends in Idle after the notification |
| PeerFsms.PeerFsm.ExpireRestart | bgp/fsm/fsm.go:1062-1076 | the restart timer leads out of Idle and changes nothing elsewhere |
| PeerFsms.PeerFsm.SendUpdate | bgp/fsm/fsm.go:1222-1246 | updates are written in Established only |
| PeerFsms.TimersReconnect | bgp/fsm/fsm.go:173-733 | left to its driving timers a machine tries to connect from the third expiry on, from any state but on a connection with hold time 0, which no timer ends; while BFD holds the neighbour down it waits in Active instead, unless it was in Connect |
| PeerFsms.NoticesAlternate | bgp/fsm/fsm.go:1044-1060 | established and broken notices alternate over any change of state |
| FsmManagers.SpeakersAgree | bgp/packet/helpers.go:855-857 | two speakers close the same one of two colliding connections if and only if their identifiers differ in the first or the last octet; otherwise each closes the one it opened and none is left |
| FsmManagers.DecidesAsTheStandard | bgp/packet/helpers.go:855-857 | exactly when the comparison agrees with that of whole identifiers (section 6.8 of RFC 4271) |
| FsmManagers.FsmManager.ReceiveOpen | bgp/fsm/fsm_manager.go:354-396 | when the other machine has a connection and is not established: with the larger identifier, as converted, on this side the OPEN goes on exactly if its connection was opened here, and what is closed was accepted; otherwise the mirror image; an established machine makes the newcomer go; what the peer hears; a valid table stays valid |
| FsmManagers.LargerSpeakerKeeps | bgp/fsm/fsm_manager.go:354-396 | of two colliding connections exactly the one opened by the speaker with the larger identifier stays, as section 6.8 of RFC 4271 asks, for the identifiers of DecidesAsTheStandard |
| FsmManagers.OpenKeepsApart | bgp/fsm/fsm_manager.go:354-396 | on a valid table: at most one machine is past the OPEN, and the survivor is the established one or the one the identifiers choose; the other leaves the table, and a session that is up never goes this way |
| FsmManagers.OneDirection | bgp/fsm/fsm_manager.go:344-396 | with two connections of one direction the OPEN goes on, and nobody is closed, if and only if the other machine is not established and the direction to close is the opposite one; otherwise either of the two may go |
| FsmManagers.BothEstablished | bgp/fsm/fsm_manager.go:354-396 | a run in which machine 0 loses an accepted connection and opens one, and both machines get past the OPEN and are established |
| FsmManagers.FsmManager.MachineEvent | bgp/fsm/fsm_manager.go:234-253 | any other event on one machine keeps the table valid, if and only if it does not bring up a connection in a direction the other machine has: directions differ, at most one machine is past the OPEN, the active machine is in the table and established, and notices alternate |
| FsmManagers.FsmManager.FsmClose | bgp/fsm/fsm_manager.go:220-232 | a machine leaves the table, and its peer hears of it if it was the active one |
| FsmManagers.FsmManager.FsmTcpConnFailed | bgp/fsm/fsm_manager.go:210-218 | goes unless it is the last machine or the active one |
| FsmManagers.FsmManager.StopFsm | bgp/fsm/fsm_manager.go:293-304 | no machine is active afterwards and at most one broken notice is given |
| FsmManagers.FsmManager.HandleAnotherConnection | bgp/fsm/fsm_manager.go:306-342 | a second connection goes to the other machine, unless there is one |
| BfdControl.PacketRoundTrip | bfd/server/bfdControl.go:160-280 | a control packet survives the wire if and only if every field fits its place |
| BfdControl.PacketLayout | bfd/server/bfdControl.go:160-236 | every field stands where section 4.1 of RFC 5880 puts it: version, diagnostic, state codes 0 to 3, the flag bits, multiplier, length 24, and the five numbers |
| BfdControl.OctetsRoundTrip | bfd/server/bfdControl.go:160-280 | a decoded packet of 24 octets encodes to the same octets |
| BfdSessions.BfdSession.EventHandler | bfd/server/bfdSession.go:118-166 | the state, the diagnostic, the dirty flag and what the protocols are told after any event, as FollowsTheStandard and MovesMean say of them; the protocols hear of changes only |
| BfdSessions.FollowsTheStandard | bfd/server/bfdSession.go:118-166 | a packet of any state moves a session of any state as section 6.8.6 of RFC 5880 says, except exactly that a session in Init or Up stays under a peer that is administratively down; timeout, stop and start |
| BfdSessions.MovesMean | bfd/server/bfdSession.go:118-309 | which moves leave which diagnostic, ask for the peer to be forgotten, and are told to the protocols |
| BfdSessions.BfdSession.ProcessPacket | bfd/server/bfdSession.go:263-309 | an acceptable packet moves the session by its state, and sets a dirty flag for whatever it changes in the cached packet; any other changes nothing |
| BfdSessions.BfdSession.UpdateControlPacket | bfd/server/bfdSession.go:324-376 | the cached packet is current afterwards, no flag is set, Poll and Final are taken over once |
| BfdSessions.BfdSession.Negotiate | bfd/server/bfdSession.go:330-354 | start-up intervals unless both ends are up; then the configured ones are taken up, with a poll, only while the buffer holds a start-up interval, and otherwise the buffer's are kept |
| BfdSessions.BfdSession.SendPeriodic | bfd/server/bfdSession.go:528-559 | what is written decodes to the session's state and discriminators at this moment and answers a poll exactly when one is unanswered; which intervals it offers; afterwards the buffer holds no Final, and a Poll exactly when this send took the configured intervals up and one of them is the start-up one; with both ends up the configured intervals are offered exactly when they are being taken up or the buffer held the same; the session's diagnostic is sent exactly when a flag was set or the buffer held it |
| BfdRuns.PollStays | bfd/server/bfdSession.go:327-393 | a run after which the buffer holds a Poll |
| BfdRuns.NewIntervalsStayBehind | bfd/server/bfdSession.go:330-354 | a run in which intervals configured while both ends are up are not offered |
| BfdRuns.OldDiagnosticIsSent | bfd/server/bfdSession.go:561-574 | a run in which the diagnostic of a timeout is not sent |
| BfdSessions.BfdSession.UpdateParams | bfd/server/bfdSessionServer.go:402-419 | new parameters are taken over, set a dirty flag and start a poll |
| BfdSessions.BfdSession.HandleTimeout | bfd/server/bfdSession.go:561-574 | the invariant of buffer and flags is kept; a session already down forgets its peer |
| BfdSessions.BfdSession.Stop | bfd/server/bfdSession.go:388-392 | ends administratively down and keeps the invariant |
| BfdSessions.BfdSession.Start | bfd/server/bfdSession.go:423-430 | starts down and keeps the invariant |
| BfdSessions.BfdSession.SendNotification | bfd/server/bfdSession.go:394-420 | no two notifications in a row are the same |
| BfdProtocol.UpMeansHandshake | bfd/server/bfdSession.go:118-309 | in every run of two sessions over a channel that loses, duplicates and reorders: a session that is up has, since it was last down, taken in a packet the peer sent in Init or Up, and the peer had by then, since it was itself last down, heard this side; the first packet taken in since a raised session was last down was sent in Down or Init, never in Up, and none sent in Down came in after the one that brought it up |
| BfdProtocol.OldPacketBringsUp | bfd/server/bfdSession.go:118-309 | the packet may be an old one: a run in which a restarted session comes up on one, with its peer stopped |
| BfdProtocol.RecentRunsHear | bfd/server/bfdSession.go:118-309 | in every run in which no packet comes in that the peer sent before this side was last down: while this side is up the peer has sent in Init or Up since then |
| BfdProtocol.EarlierLifeCounts | bfd/server/bfdSession.go:118-309 | such a run in which the peer is in Init on a packet of this side from before it was stopped |
| BfdProtocol.EveryRunIsValid | bfd/server/bfdSession.go:118-309 | the invariant behind it, over every run |
| BfdProtocol.ThreeExchanges | bfd/server/bfdSession.go:118-166 | when packets get through, three exchanges bring both ends up from any state but administratively down, and they stay up |
| BfdProtocol.PeerAdminDownKeepsUp | bfd/server/bfdSession.go:118-166 | over any run in which the peer stays administratively down, no older packet comes in and this side is not timed out, stopped or started, a session that is up stays up, contrary to section 6.8.6 of RFC 5880 |
| ArpCaches.ResolvedLife | arp/server/arpCache.go:329-345 | a resolved dynamic entry that is not refreshed is gone after exactly counter - minCnt + 1 ticks |
| ArpCaches.UnresolvedLife | arp/server/arpCache.go:366-396 | an unresolved dynamic entry just made is gone after exactly retryCnt ticks, for a timeout of at least 300 |
| ArpCaches.RibEntryStays | arp/server/arpCache.go:346-395 | an entry the RIB owns outlives any number of ticks and stays the RIB's |
| ArpCaches.RibEntryExpires | arp/server/arpCache.go:346-395 | a resolved entry the RIB owns stays resolved for exactly as long as a dynamic one lives, and is then unresolved with a full counter |
| ArpCaches.HardwareAfterTick | arp/server/arpCache.go:329-395 | a tick takes out of the hardware exactly the entries whose counter has run out, whoever owns them |
| ArpCaches.ArpServer.IncompleteUpdate | arp/server/arpCache.go:229-255 | the hardware holds exactly the resolved entries, the slice lists every entry once, the RIB loses none; which entry results |
| ArpCaches.ArpServer.LearnedUpdate | arp/server/arpCache.go:257-306 | the same for a learned address; ownership by the RIB sticks |
| ArpCaches.ArpServer.EntryUpdate | arp/server/arpCache.go:317-323 | only the entry named changes |
| ArpCaches.ArpServer.CounterUpdate | arp/server/arpCache.go:325-397 | one tick for every entry, whatever the order; the mirror is kept and no entry of the RIB goes |
| ArpCaches.ArpServer.CounterLimit | arp/server/arpCache.go:174-182 | counters above a shorter timeout are cut, all others stay |
| ArpCaches.ArpServer.MacMove | arp/server/arpCache.go:184-192 | only the port of one entry changes |
| ArpCaches.ArpServer.DeleteInterface | arp/server/arpCache.go:194-227 | exactly the entries on the port, VLAN or interface go, from cache and hardware |
| ArpCaches.ArpServer.DeleteFromRib | arp/server/arpCache.go:147-172 | the RIB removes its own entries only |
| ArpCaches.ArpServer.DeleteByIp | arp/server/arpActions.go:42-68 | an entry goes unless the RIB owns it (processArpEntryDeleteInt does the same) |
| ArpCaches.ArpServer.DeleteByIfName | arp/server/arpActions.go:70-81 | exactly the dynamic entries on the interfaces of the name go |
| ArpCaches.ArpServer.RefreshByIp | arp/server/arpActions.go:83-106 | the entry is unresolved again, in cache and hardware, and keeps its owner |
| ArpCaches.ArpServer.RefreshByIfName | arp/server/arpActions.go:108-119 | the same for every entry on the interfaces of the name |
| ArpCaches.ArpServer.RefreshSlice | arp/server/arpCache.go:421-435 | the slice lists exactly the entries, once each |

## Left out

- Destinations.Destination.AddOrUpdatePath: assumes that a path's pointer is stored under one key only and that two stored paths of one source have neighbours, since the source reads the neighbour without a nil check when it breaks ties; next hops of stored paths do not change.
- Destinations.Destination.SelectRouteForLocRib: does not model additional paths (`addAddPaths`, `updateAddPaths`) nor the lists of added, updated and deleted routes it returns; which paths are reachable and free of AS loops is an input.
- Cascade.NothingIsLost: speaks of the lists the stages prune; the first pruned list, the candidates of worse sources, is the caller's.
- Walks.WinnerIgnoresOrder: one way only where a path that lags in origin ties in all later keys with one that does not, and so for VisitOrder.VisitsChoose and CascadeOrder.ChoiceIgnoresOrder. Paths of different neighbours never tie so, but two paths of one neighbour with different path ids do, so receiving additional paths makes the case real; which of the two ends in front then depends on how the stages before placed them.
- IdAllocators.IdAllocator.GetNextId: does not model 32-bit wrap-around of the largest id; the same holds for prefix counters and the count of routes.
- LocRibs.LocRib.ProcessRoutes: a destination stands there for its stored paths, and whether the selection reported deletion is an input (so too in LocRibs.LocRib.RemoveUpdatesFromNeighbor), which Destinations.Destination.WithdrawPath and WithdrawPeer determine for a destination left empty; bookkeeping of unreachable next hops (`unreachablePaths`) is not modelled.
- RouteLists.RouteList.BulkGet: one protocol family that has a list; the early return for a family that never had a destination is not modelled, and the reset timer is a call of ResetRouteList at any time.
- UpdatePacking.PackKeepsMeaning: covers updates without MP_UNREACH_NLRI in which MP_REACH_NLRI, if present, is the only one and the only reachability; attributes count as a bag, since inserting by code does not keep them sorted.
- NlriCodec.DecodedPrefix: only the IPv4 and IPv6 address families.
- UpdateDecoding.MessageRoundTrip: attributes other than MP_REACH_NLRI are kept as octets, so that the decoders of their values do not take part but for AS_PATH in module AsPaths, nor NormalizeASPath after them; the low four bits of the flags of an MP_REACH_NLRI, which mean nothing, are not kept; where a decoder fails the model does not tell an error from an index out of range.
- BfdControl.PacketRoundTrip: packets without an authentication section; a packet of fewer than 24 octets makes the source index out of range.
- BfdSessions.BfdSession.SendPeriodic: timers, jitter, authentication sequence numbers and ResetBfdSession are not modelled.
- PeerFsms.PeerFsm.ProcessEvent: timer ticks that arrive late, connection ids, goroutine scheduling and the content of messages are not modelled.
- FsmManagers.FsmManager.MachineEvent: closing a machine takes effect at once; Cleanup, which locks a mutex it holds, is not modelled.
- ArpCaches.ArpServer.LearnedUpdate: hardware calls succeed; requests on the wire, events, the database and the kernel's table are not modelled.
- RemoveAllNeighborPaths, ProcessRoutesForReachableRoutes and route aggregation in the RIB.
- AS path aggregation, AS4_PATH merging, PrependASList, originator id and cluster list insertion.
- MP_UNREACH_NLRI, and updates with both multi-protocol attributes.
- The policy engine beyond its id allocator, configuration readers, logging, databases, RPC and sockets.
