# Verified model of the routing and interfaces plugins

The repository connects sysrepo to the Linux kernel: two plugins read YANG configuration and
operational requests on one side and talk netlink on the other. This project models their
stateful parts in Dafny and proves what they keep, restore, order and release.

Everything stands on explicit state. A libnl cache is a finite sequence of records, the kernel is
a set of addresses, a neighbour map or a route table with the requests it has received, and a
sysrepo diff is a sequence of events. Objects that the C code updates in place are classes with
the same fields; each method is proved against a specification function, and the lemmas are about
those functions. `NodeHeap` is a ledger of the list nodes that come from `malloc`: it makes
"released exactly once" and "nothing leaks" provable equalities.

## The parts

**RIB index** (`NextHops`, `Routes`, `RouteLists`, `RouteListHashes`, `RibLists`, `RoutingCommon`,
`RibIndexProperties`, `RouteContents`). The flat kernel route cache becomes RIBs by name and
family, then prefixes, then routes, each a deep copy of a reused temporary, and one route per
prefix is marked active (section 7 of RFC 8349). The reference definition is `Arrivals`, a filter
of the cache. Ownership is tracked per list element, so that adding to one list, marking one route
or freeing one element provably leaves the rest alone.

**Rendering** (`RouteRendering`, `RenderingProperties`, `EntryConservation`). The nested
emission loops over that index, with the buffer that is rewritten inside the innermost loop. The
emitted entries are, as a multiset, one for each cache route.

**Static routes** (`StaticRoutes`, `StaticRouteApply`, `StaticRoutePlans`,
`StaticRouteProperties`, `StaticRouteKernel`, `StaticRouteDiffs`). An event stream is folded into
two indexes through one shared cursor, then two loops apply them. The reference design is
`Blocks`: a flat list with one block per destination-prefix event, no index and no cursor. The
kernel answers by an arbitrary function where containment of failures is proved, and by a
well-behaved one where the result is. `StaticRouteDiffs` takes the configurations before and
after, with all three forms of the next-hop container, lets the diff list the changed entries and
their address leaves in any order, and says when the kernel follows.

**Address and neighbour reconciliation** (`Netmasks`, `Changes`, `AddressActions`,
`Reconciliation`, `ModContexts`, `Ipv4AddressChanges`, `Ipv4AddressPasses`, `SubnetForms`,
`Ipv6AddressChanges`, `Ipv4NeighborChanges`, `ChangeSubscription`). Several ordered passes over
one diff, with scratch fields shared between nested callbacks, move the kernel from the image
of the old configuration to that of the new one. The events of a pass may come in any order.

**Oper-state tracker** (`StateTracker`). Every event rescans the whole link cache; the claim is
about the whole trace of observations.

**Tree conversion and master walks** (`Decimals`, `InterfaceTrees`, `InterfaceRoundTrips`,
`InterfaceContents`, `MasterWalks`).

## Where the code departs from its intent

The model follows the code. The first list gives each departure its exact condition.

- A surviving IPv4 address that switches between prefix length and netmask is not re-applied
  (`Ipv4AddressPasses.FormSwitchIsLost`). Reconciliation holds exactly when no such switch
  changes the length (`Ipv4AddressPasses.DiffReconciles`).
- An address or neighbour callback fails when its link is gone, so a diff that removes a link
  together with its addresses is refused; success is characterised exactly.
- Created neighbours are requested without replacement: one that the kernel already has keeps
  its link-layer address (`Ipv4NeighborChanges.KnownNeighborExample`). All configured
  neighbours get their own address exactly when the known ones agree already
  (`Ipv4NeighborChanges.ConfiguredIff`).
- The next hop of a surviving static route is never changed. A created or deleted leaf of a
  survivor is applied to the created or deleted entry that the diff listed last, and fails the
  callback when there is none; a modified leaf is ignored
  (`StaticRouteDiffs.StrayGatewayExample`, `StaticRouteKernel.ModificationsAreLost`).
- A created static route keeps one next-hop address at most. Each address of a next-hop list
  overwrites the one before (`StaticRouteDiffs.TwoHopExample`); outgoing interfaces and special
  next hops are dropped, and an entry left without any address fails the callback on a kernel
  that refuses such routes (`StaticRouteDiffs.AddresslessFails`).
- With both departures, a diff that succeeds leaves the kernel with the new configuration exactly
  when no survivor has other next hops and every created entry ends with the ones it wants
  (`StaticRouteDiffs.DiffReconciles`). When no address leaf of a survivor comes or goes, the
  second half says that each created entry has an empty next-hop list or a single address and
  nothing else (`StaticRouteDiffs.FaithfulIff`).
- A stream that creates and deletes one prefix, as when a route moves between two protocol
  instances, never installs the new route: additions run first, and the deletion takes away the
  route that was just put in front. An installed prefix keeps its old route, an absent one stays
  absent, and when the new route equals the installed one the callback fails
  (`StaticRouteKernel.CreatedAndDeleted`).
- `route_set_last_updated` writes the source protocol, and an empty next-hop list is cloned to
  no next hop; a clone is faithful exactly when neither is in play (`Routes.CloneIsFaithful`).
- Any route with several next hops makes the operational callback fail after it has emitted
  everything (`RenderingProperties.FailsIffMultipath`).
- RIBs of any family but IPv4 share the path of the IPv6 RIB with their name
  (`RenderingProperties.SamePathIff`).
- The lower-layer walk starts at the queried link instead of the iterated one and therefore
  emits nothing; that is right exactly when no link has the queried one as its master
  (`MasterWalks.LowerLayerAsWritten`, `MasterWalks.BridgeExample`).
- An IPv4 address without a subnet is written without one and then refused on reading
  (`InterfaceRoundTrips.RoundTrip`).
- Reading an interface without an `ipv4` container takes over the leaves of an earlier
  interface; a list is read interface by interface exactly when the last container before each
  such interface has leaves that read as zero (`InterfaceRoundTrips.StaleLeaves`,
  `InterfaceRoundTrips.StaleLeavesExample`).

One more is modelled as it stands: `route_next_hop_set_simple_interface` leaves the union tag
alone, and its only caller sets the tag first.

## Model

| member | source | states |
|---|---|---|
| RibIndexProperties.GatheredIsFilter | src/routing/common.c:124-188 | for every cache and every (table name, family, prefix), the route list stored behind that key is exactly the reverse-arrival filter of the cache |
| RibIndexProperties.IndexLookup | src/routing/common.c:105-215 | the selection changes nothing behind any key but the active marks of that key's own filter |
| RibIndexProperties.RibOrder | src/routing/common.c:70-87 | RIBs stand in first-occurrence order of (table name, family), no key twice |
| RibIndexProperties.PrefixOrder | src/routing/route/list_hash.c:30-48 | within a RIB, prefixes stand in first-occurrence order of its cache entries, none twice |
| RibIndexProperties.TotalIsCacheLength | src/routing/common.c:126-188 | no route is lost or invented: the index holds as many routes as the cache |
| RibIndexProperties.DefaultIffMain | src/routing/common.c:81-84 | a RIB of the final index is marked default exactly when its name starts with "main" |
| RibIndexProperties.OneActiveRoute | src/routing/common.c:190-211 | behind every key of the cache exactly one route is active: the copy of the entry with the least metric and, among ties, the latest one; and where it stands in its list |
| RibIndexProperties.EveryGroupHasOneActive | src/routing/common.c:194-209 | the same read from the index: every prefix group of every RIB belongs to a cache entry and has exactly one active route, the winner's copy |
| RibIndexProperties.GroupIsLookup | src/routing/route/list_hash.c:50-63 | looking up the key of any group of the index returns that very group |
| RoutingCommon.SecondPassFinds | src/routing/common.c:134-138 | however far the second pass has got, its RIB lookup succeeds for every route of the cache |
| RoutingCommon.CollectRibList | src/routing/common.c:64-87 | the first pass over heap lists computes the specified RIB list; the heap grows by exactly the nodes that the list newly owns |
| RoutingCommon.FillNextHop | src/routing/common.c:144-173 | the next-hop switch gives the next hop that the route type and the number of kernel next hops call for, with fresh nodes only |
| RoutingCommon.FillHopList | src/routing/common.c:53-57 | with the link cache open, the per-next-hop callback builds a list with every kernel next hop in order |
| RoutingCommon.CollectRoute | src/routing/common.c:126-188 | one round stores an unchanged deep copy behind its key and leaves no node of the temporary alive |
| RoutingCommon.CollectRoutes | src/routing/common.c:105-215 | the whole function returns 0 and produces the specified index; every heap node added is owned by the index |
| RouteContents.StoredRoute | src/routing/common.c:126-209 | every cache route is stored behind its own table name, family and destination, as many places from the front as later routes have the same ones, with its own metric, source protocol and next hops, gateway, index and link name of each, and marked active if and only if it is the preferred one |
| NextHops.NextHop.SetSimpleGateway | src/routing/route/next_hop.c:28-36 | sets tag and address, keeps the rest of a simple value |
| NextHops.NextHop.SetSimpleInterface | src/routing/route/next_hop.c:38-42 | writes index and name but leaves the tag as it was |
| NextHops.NextHop.SetSpecial | src/routing/route/next_hop.c:50-56 | sets the tag; without a value the stale union bytes remain |
| NextHops.NextHop.AddList | src/routing/route/next_hop.c:58-78 | appends one owned node at the end; an empty next hop becomes a list |
| NextHops.NextHop.Clone | src/routing/route/next_hop.c:80-103 | the copy has the same meaning, except that an empty list becomes no next hop, and all its nodes are new |
| NextHops.NextHop.Free | src/routing/route/next_hop.c:105-144 | releases each owned node exactly once and nothing else; the tag is none afterwards |
| Routes.CloneIsFaithful | src/routing/route.c:58-72 | a clone equals its source if and only if last-updated is unset and the next hop is not an empty list; otherwise just these are lost, last-updated standing in place of the source protocol |
| Routes.Route.Clone | src/routing/route.c:58-72 | a deep copy: every object reachable from the result is new, the source is untouched |
| Routes.Route.SetLastUpdated | src/routing/route.c:44-49 | as written, the argument lands in the source protocol |
| Routes.Route.Free | src/routing/route.c:74-90 | releases exactly the route's next-hop nodes and leaves an empty route |
| RouteLists.RouteList.Add | src/routing/route/list.c:32-42 | prepends a deep copy; old elements, their meaning and their ownership are unchanged |
| RouteLists.RouteList.SelectActive | src/routing/common.c:196-209 | marks the first route of least preference and no other |
| RouteLists.RouteList.Free | src/routing/route/list.c:44-54 | terminates, empties the head, releases exactly the nodes the list owns |
| RouteListHashes.RouteListHash.Get | src/routing/route/list_hash.c:50-63 | returns the list head inside the first element with this prefix, or NULL exactly when there is none |
| RouteListHashes.RouteListHash.Add | src/routing/route/list_hash.c:30-48 | a known prefix gets the newest route at its front, an unknown one a new last group; no other group changes |
| RouteListHashes.RouteListHash.Free | src/routing/route/list_hash.c:65-76 | releases every prefix, route and next-hop node of the list exactly once and leaves the head NULL |
| RibLists.RibList.Get | src/routing/rib/list.c:82-98 | finds the first RIB with this name and family, NULL exactly when there is none |
| RibLists.RibList.Add | src/routing/rib/list.c:34-50 | appends an empty RIB unless the key is already there |
| RibLists.RibList.SetDefault | src/routing/rib/list.c:67-80 | marks the RIB, or returns -1 and changes nothing |
| RibLists.RibList.Free | src/routing/rib/list.c:100-110 | nested release: every RIB, prefix, route and next-hop node exactly once, terminating, head NULL |
| RouteRendering.GetRibRoutes | src/routing/subscription/operational.c:104-316 | emits exactly the entries of the index, each from its own data despite the in-loop buffer rewrite; leaks no node; fails exactly when some route has a list next hop |
| RouteRendering.RenderGroup | src/routing/subscription/operational.c:117-297 | one entry per route of a group, every one with the same destination-prefix text |
| RenderingProperties.OneEntryPerRoute | src/routing/subscription/operational.c:130-134 | as many entries as cache routes |
| EntryConservation.EntriesAreRoutes | src/routing/subscription/operational.c:104-298 | for every cache, the emitted entries are as a multiset exactly one entry per cache route, under its RIB's path, with its own destination text and data, and marked active if and only if the route is the winner of its key |
| RouteContents.EntryShows | src/routing/subscription/operational.c:104-298 | the entry of a cache route field by field: path, metric in decimal, source protocol, one hop entry per next hop with its link name and, when the module of the family is there, its gateway; an IPv4 default destination is 0.0.0.0/0, any other family's ::/0, a destination with a length is shown as it is, one without gets its length in decimal |
| RouteContents.EmittedEntries | src/routing/subscription/operational.c:104-298 | rearranged, the emitted entries show the cache routes one by one in this way, and those of the preferred routes alone are marked active |
| EntryConservation.EveryRouteHasEntry | src/routing/subscription/operational.c:130-296 | the entry of each cache route, active mark included, is among the emitted ones |
| EntryConservation.PlacedTags | src/routing/common.c:126-188 | after any part of the second pass the stored routes, each with its key and arrival number, are exactly those of the entries placed so far |
| EntryConservation.MarkIsWinner | src/routing/common.c:197-208 | the arrival that the selection marks is that of the winning cache entry and no other |
| RenderingProperties.SamePathIff | src/routing/subscription/operational.c:108-110 | two RIBs share a path exactly when they share their name and are both IPv4 or both not; for the two IP families the path determines name and family |
| RenderingProperties.FailsIffMultipath | src/routing/subscription/operational.c:202-302 | over any cache the callback fails if and only if the cache holds an ordinary route with several next hops |
| RenderingProperties.MultipathExample | src/routing/subscription/operational.c:210-302 | a one-entry cache that makes it fail |
| StaticRoutes.HandleEvent | src/routing/subscription/change.c:155-245 | one created or deleted event on the heap does what the specified step does, through the shared cursor |
| StaticRoutes.GatherEvents | src/routing/subscription/change.c:141-246 | the loop builds exactly the folded indexes, or returns -1 exactly when the fold fails |
| StaticRouteProperties.FoldIsGather | src/routing/subscription/change.c:141-246 | for every stream, indexes and cursor are the flat block list gathered by prefix, and the two designs fail together |
| StaticRouteProperties.CursorIsLastBlock | src/routing/subscription/change.c:166-191 | the cursor always denotes the newest route of the last-mentioned prefix: editing through it edits the last block and no other |
| StaticRouteProperties.GatheringFailsIff | src/routing/subscription/change.c:156-241 | gathering fails exactly when some event has an address that does not parse, or is a leaf before the first destination prefix |
| StaticRouteProperties.EntriesBecomeBlocks | src/routing/subscription/change.c:141-246 | in every stream that carries the leaves of created and deleted entries, each with any number of next-hop addresses and with any list nodes and containers in between, each leaf lands in the route of its own entry, where the last address stays |
| StaticRouteProperties.NoiseIsIgnored | src/routing/subscription/change.c:155-245 | modified or moved nodes and other node names change nothing, wherever they stand in the stream |
| StaticRouteProperties.OneRoutePerPrefix | src/routing/route/list_hash.c:30-48 | with distinct prefixes each index holds exactly one route per prefix, in arrival order, with its own leaves |
| StaticRouteApply.ApplyRoutes | src/routing/common.c:266-437 | either apply loop performs its plan up to the first request that cannot be built or is refused; the order of that plan is given by the next two rows |
| StaticRoutePlans.PlanInOrder | src/routing/common.c:280-345 | the plan position by position: a route of a group is asked for behind all routes of the groups before it and the newer routes of its own, with its prefix, its metric and each of its next hops, and nothing else is asked for |
| StaticRoutePlans.StreamOrder | src/routing/subscription/change.c:156-230 | with distinct prefixes the requests are those of the created, or deleted, entries of the event stream, in its order |
| StaticRouteApply.ApplyStaticRoutesChanges | src/routing/subscription/change.c:100-302 | the callback's kernel table, requests and result are those of fold, additions, deletions; no list node outlives it on any exit |
| StaticRouteKernel.RunStops | src/routing/common.c:280-345 | whatever the kernel answers, the requests before the first that cannot be built or is refused take effect, and nothing after it is issued |
| StaticRouteKernel.FailureContained | src/routing/subscription/change.c:246-282 | an error while gathering or connecting issues nothing; a failing addition leaves exactly the additions before it in index order and no deletion is issued; a failing deletion leaves all additions and exactly the deletions before it |
| StaticRouteKernel.RefusedEntry | src/routing/common.c:280-369 | for every kernel, with distinct created prefixes: a refusal of one created entry leaves exactly the entries before it in stream order installed, and ends the callback with that request |
| StaticRouteKernel.AddsSucceedIff | src/routing/common.c:266-369 | on a well-behaved kernel additions succeed exactly when every route is usable, no two of one prefix are the same and none is there already; then each prefix holds the added routes, latest first, before its old ones |
| StaticRouteKernel.DeletesSucceedIff | src/routing/common.c:378-437 | deletions, which match routes of any metric, succeed exactly when every prefix has as many routes as are deleted; then each prefix has lost that many from its front |
| StaticRouteKernel.ChangesApplied | src/routing/subscription/change.c:248-280 | for every stream that can be gathered, every table and every notion of usable routes: the exact success condition, prefix by prefix, and on success the exact routes of every prefix |
| StaticRouteKernel.CreatedCarryOwnHop | src/routing/subscription/change.c:180-196 | every created prefix that is not also deleted is installed with the next hop of its own block |
| StaticRouteKernel.CreatedAndDeleted | src/routing/subscription/change.c:264-280 | a prefix created and deleted in one stream ends as it began, or the callback fails because the new route was installed already |
| StaticRouteKernel.ModificationsAreLost | src/routing/subscription/change.c:198-200 | a stream without created or deleted leaves that the switch knows reports success without any request |
| StaticRouteDiffs.DiffLands | src/routing/subscription/change.c:155-245 | for any diff in any order of entries and address leaves, gathering gives one route per created or deleted entry, in which the stray leaves of the survivors listed after it have landed |
| StaticRouteDiffs.LandingsIff | src/routing/subscription/change.c:172-185 | such a diff can be gathered exactly when every stray leaf of a survivor is listed after some created or deleted entry |
| StaticRouteDiffs.EndIndexIff | src/routing/subscription/change.c:166-240 | the address that a created entry ends with is characterised without replaying the stream: it comes from the last survivor with a stray address listed between the entry and the next created or deleted one, or else from the entry itself |
| StaticRouteDiffs.LandedAt | src/routing/subscription/change.c:166-240 | for every diff that can be gathered, the kernel is asked for exactly one route per created entry, with the address so characterised |
| StaticRouteDiffs.DiffReconciles | src/routing/subscription/change.c:141-280 | for a kernel that holds the old configuration and any rest: the exact success condition of a diff (each stray leaf has an entry before it, each created route as it ends is usable and new), and on success the kernel holds the new configuration and the same rest if and only if no survivor has other next hops and every created entry ends with those it wants |
| StaticRouteDiffs.CarriedIff | src/routing/subscription/change.c:145-196 | what a created entry asks for by its own leaves, listed in any order, is what its configuration wants if and only if that is an empty list or a single address without interface |
| StaticRouteDiffs.FaithfulIff | src/routing/subscription/change.c:145-240 | when no address leaf of a survivor comes or goes, a successful diff is followed by the kernel if and only if the survivors keep their next hops and the switch can carry those of every created entry |
| StaticRouteDiffs.TwoHopExample | src/routing/subscription/change.c:180-196 | a new entry with two next hops in a list: the callback succeeds and installs the second alone |
| StaticRouteDiffs.AddresslessFails | src/routing/subscription/change.c:155-196 | a created entry that ends without any address makes the callback fail on a kernel that refuses routes without next hops |
| StaticRouteDiffs.StrayGatewayExample | src/routing/subscription/change.c:172-240 | one new entry, and one survivor whose next hop goes from an address to an interface: listed in one order the old address goes to the new prefix with success and the survivor keeps its route, in the other order the callback fails |
| StaticRouteDiffs.HistoryReconciles | src/routing/subscription/change.c:100-302 | over any run of allowed changes every callback succeeds and the kernel ends with the last configuration and the rest it started with |
| Netmasks.NetmaskToPrefix | src/interfaces/src/plugin/data/interfaces/interface/ipv4/address.c:126-155 | at most 32 rounds; returns the number of one bits of the mask, -1 exactly for text that is no address |
| Netmasks.ByteOrderIrrelevant | src/interfaces/src/plugin/data/interfaces/interface/ipv4/address.c:135-142 | the count is the same on machines of either byte order |
| Netmasks.LengthIsOneBits | src/interfaces/src/plugin/data/interfaces/interface/ipv4/address.c:126-155 | for every mask, contiguous or not, the result is the size of the set of its one bits |
| Netmasks.MaskRoundTrip | src/interfaces/src/plugin/data/interfaces/interface/ipv4/address.c:126-155 | for every length 0 to 32, converting the mask with that many leading ones gives the length back |
| Netmasks.ContiguousInjective | src/interfaces/src/plugin/data/interfaces/interface/ipv4/address.c:126-155 | two contiguous masks with the same result are the same mask |
| Netmasks.RoundTripIffContiguous | src/interfaces/src/plugin/data/interfaces/interface/ipv4/address.c:126-155 | mask to length to mask is the identity if and only if the mask is contiguous |
| ModContexts.ModContext.Free | src/interfaces/src/plugin/api/interfaces/change.c:100-120 | clears all shared scratch state |
| Ipv4AddressChanges.CollectLength | src/interfaces/src/plugin/api/interfaces/interface/ipv4/address/change.c:348-385 | the nested iterations leave the length of this very address in the scratch fields, or an error |
| Ipv4AddressChanges.ChangeIp | src/interfaces/src/plugin/api/interfaces/interface/ipv4/address/change.c:291-459 | from clear scratch to clear scratch on every exit; the kernel gets the one request this event calls for |
| Ipv4AddressChanges.ChangePrefixLength | src/interfaces/src/plugin/api/interfaces/interface/ipv4/address/change.c:169-279 | a modified length replaces the old address by the new one, other operations send nothing |
| Ipv4AddressChanges.ChangeNetmask | src/interfaces/src/plugin/api/interfaces/interface/ipv4/address/change.c:38-157 | the same for a modified netmask, with both masks converted |
| Ipv4AddressPasses.ApplyDiff | src/interfaces/src/plugin/subscription/change.c:70-80 | the three passes perform their actions in order up to the first error, scratch clear on every exit |
| Ipv4AddressPasses.FailingPass | src/interfaces/src/plugin/subscription/change.c:70-80 | a failing ip pass ends the diff with what it has done by then, all surviving addresses untouched; a failing prefix-length pass ends it before any survivor with a netmask is touched |
| Ipv4AddressPasses.UnparsableFails | src/interfaces/src/plugin/api/interfaces/interface/ipv4/address/change.c:38-385 | a diff that creates an address with a netmask that is no address, or changes a netmask to one, fails |
| Ipv4AddressPasses.DiffReconciles | src/interfaces/src/plugin/api/interfaces/interface/ipv4/address/change.c:38-459 | for any event order: success exactly when links are present and no new address collides; then the new image plus the unrelated addresses exactly when no survivor switches form with a different length |
| Ipv4AddressPasses.FormSwitchIsLost | src/interfaces/src/plugin/api/interfaces/interface/ipv4/address/change.c:90-119 | the concrete diff that succeeds without a request and leaves the old length in the kernel |
| Ipv4AddressPasses.HistoryReconciles | src/interfaces/src/plugin/api/interfaces/interface/ipv4/address/change.c:38-459 | over any history of allowed diffs the kernel ends with the last image plus the initial unrelated addresses |
| Reconciliation.RunReconciles | src/interfaces/src/plugin/api/interfaces/interface/ipv4/address/change.c:344-440 | the family-independent core: exact success condition and exact final state of one batch of expected actions |
| AddressActions.IndependentRun | src/interfaces/src/plugin/api/interfaces/interface/ipv4/address/change.c:344-440 | actions on different addresses do not disturb each other, whatever their order |
| SubnetForms.SameActions | src/interfaces/src/plugin/api/interfaces/interface/ipv4/address/change.c:90-119 | one diff given by netmasks asks for the same sequence of actions as the diff given by the matching lengths |
| SubnetForms.SameHistory | src/interfaces/src/plugin/api/interfaces/interface/ipv4/address/change.c:217-242 | whole histories drive the kernel through equal requests to equal states and results, failing steps included |
| Ipv6AddressChanges.ChangeIp | src/interfaces/src/plugin/api/interfaces/interface/ipv6/address/change.c:153-296 | scratch clear on entry and every exit; one request per event |
| Ipv6AddressChanges.ApplyDiff | src/interfaces/src/plugin/subscription/change.c:90-96 | both passes in order up to the first error |
| Ipv6AddressChanges.FailingPass | src/interfaces/src/plugin/subscription/change.c:90-96 | a failing ip pass ends the diff with what it has done by then, all surviving addresses untouched |
| Ipv6AddressChanges.DiffReconciles | src/interfaces/src/plugin/api/interfaces/interface/ipv6/address/change.c:31-296 | success exactly when links are present and no new address collides; then the new image plus the unrelated addresses |
| Ipv4NeighborChanges.ChangeIp | src/interfaces/src/plugin/api/interfaces/interface/ipv4/neighbor/change.c:127-238 | the scratch link-layer address is NULL and unset on entry and every exit; the neighbour gets its own address |
| Ipv4NeighborChanges.ApplyDiff | src/interfaces/src/plugin/subscription/change.c:82-88 | both passes in order up to the first error |
| Ipv4NeighborChanges.FailingPass | src/interfaces/src/plugin/subscription/change.c:82-88 | a failing ip pass ends the diff with what it has done by then, all surviving neighbours untouched |
| Ipv4NeighborChanges.DiffReconciles | src/interfaces/src/plugin/api/interfaces/interface/ipv4/neighbor/change.c:34-238 | success exactly when links are present and every new link-layer address parses; then the new image, where neighbours already known to the kernel keep their address, plus the unrelated ones |
| Ipv4NeighborChanges.UnparsableFails | src/interfaces/src/plugin/api/interfaces/interface/ipv4/neighbor/change.c:34-217 | a link-layer address of the new configuration that does not parse puts a failing action into the diff |
| Ipv4NeighborChanges.ConfiguredIff | src/interfaces/src/plugin/api/interfaces/interface/ipv4/neighbor/change.c:163-217 | after a successful diff each configured neighbour has its own address if and only if every newly configured one that the kernel knew had it already |
| Ipv4NeighborChanges.KnownNeighborExample | src/interfaces/src/plugin/api/interfaces/interface/ipv4/neighbor/change.c:163-217 | creating a neighbour that the kernel has learnt with another address succeeds and changes nothing |
| ChangeSubscription.ChangeInterfaces | src/interfaces/src/plugin/subscription/change.c:31-114 | for the three parts modelled: fixed order with early exit, a failing part keeps the later ones away from their state; abort fails, other events do nothing |
| ChangeSubscription.FailingPart | src/interfaces/src/plugin/subscription/change.c:70-105 | a failing IPv4 address part leaves neighbours and IPv6 addresses untouched, a failing neighbour part leaves IPv6 addresses untouched, and the callback succeeds exactly if no part fails |
| ChangeSubscription.FailingFirstPass | src/interfaces/src/plugin/subscription/change.c:70-105 | when the first pass fails, as for an address on a link that is gone, no neighbour, no IPv6 address and no surviving IPv4 address changes |
| ChangeSubscription.ChangeReconciles | src/interfaces/src/plugin/subscription/change.c:70-96 | the address and IPv4 neighbour passes succeed exactly for accepted changes; the kernel then mirrors the new configuration with what remains of the rest exactly when no survivor switches form with another length and the known neighbours agree |
| ChangeSubscription.RunReconciles | src/interfaces/src/plugin/subscription/change.c:41-105 | over any run of accepted, faithful changes, with the links of each step, every callback succeeds and the kernel mirrors the last configuration with what remains of the rest |
| StateTracker.Tracker.Init | src/interfaces/src/plugin.c:402-461 | the first scan fails exactly on a repeated name, the links before it being in the table; otherwise the table is that of the observed links |
| StateTracker.Tracker.LinkCacheChange | src/interfaces/src/plugin.c:463-533 | one callback observes every link of the cache in order |
| StateTracker.Tracker.HashAdd | src/interfaces/src/plugin/data/interfaces/interface_state.c:22-37 | adds a new name, refuses a known one without change |
| StateTracker.RunIsTrace | src/interfaces/src/plugin.c:463-533 | a run of scans is one trace of observations |
| StateTracker.NamesSeen | src/interfaces/src/plugin/data/interfaces/interface_state.c:22-46 | the table has an entry for exactly the names ever seen |
| StateTracker.EntryShowsTrace | src/interfaces/src/plugin.c:480-529 | an entry shows the last observed state and the clock at the first or the latest state-changing observation of its name |
| StateTracker.AgreesOnUniqueNames | src/interfaces/src/plugin.c:463-533 | after every rescan each link of the cache has its current state in the table |
| StateTracker.LastChangeNeverDecreases | src/interfaces/src/plugin.c:480-529 | with a clock that does not go back, no recorded change time ever decreases |
| Decimals.PrintThenRead | src/interfaces/src/plugin/data/interfaces/interface.c:209-214 | reading a printed natural number returns it |
| Decimals.PrintSpells | src/interfaces/src/plugin/data/interfaces/interface.c:394-433 | a printed number is its decimal digits in order, without a leading zero unless it is 0 |
| Decimals.AtoiReadsFront | src/interfaces/src/plugin/data/interfaces/interface.c:209-214 | the number read from any text is the one that its leading digits denote |
| InterfaceTrees.HashToLy | src/interfaces/src/plugin/data/interfaces/interface.c:333-455 | the tree written for a table, node by node |
| InterfaceContents.WrittenInterface | src/interfaces/src/plugin/data/interfaces/interface.c:333-455 | looked up leaf by leaf: every interface is written with its own flags, decimal mtu and lengths, addresses and neighbours of both families in order, and nothing else |
| InterfaceTrees.HashFromLy | src/interfaces/src/plugin/data/interfaces/interface.c:140-331 | the table read from any list of interface nodes, including node variables left over from earlier interfaces; -1 with what was read before the first node that cannot be read |
| InterfaceContents.ReadInterfaces | src/interfaces/src/plugin/data/interfaces/interface.c:140-331 | for any list of interface nodes: reading fails exactly when a name, a type, an ip or a subnet is missing; otherwise it returns, in order, for the first node of each name its own leaves and its addresses last one first, with the ipv4 leaves of the last ipv4 container up to it |
| InterfaceRoundTrips.InterfaceRoundTrip | src/interfaces/src/plugin/data/interfaces/interface.c:161-310 | one written interface is read back as kept, whatever was read before it |
| InterfaceRoundTrips.RoundTrip | src/interfaces/src/plugin/data/interfaces/interface.c:140-455 | reading a written table succeeds exactly when every IPv4 subnet is set, and returns the interfaces in order with both address lists reversed |
| InterfaceRoundTrips.TwoRoundTrips | src/interfaces/src/plugin/data/interfaces/interface.c:140-455 | writing and reading a table twice succeeds, restores both address lists and loses nothing beyond the first time |
| InterfaceRoundTrips.KeptFits | src/interfaces/src/plugin/data/interfaces/interface.c:140-455 | what one round trip returns can always make the next |
| InterfaceRoundTrips.StaleLeaves | src/interfaces/src/plugin/data/interfaces/interface.c:161-310 | for every list of interface nodes, reading equals reading each node by itself if and only if, before each interface without an ipv4 container that is the first of its name, the last container has leaves that read as zero |
| InterfaceRoundTrips.StaleLeavesExample | src/interfaces/src/plugin/data/interfaces/interface.c:172-214 | two interfaces, the second without an ipv4 container, which is read with IPv4 enabled |
| MasterWalks.HigherLayerIf | src/interfaces/src/plugin/subscription/operational.c:349-361 | the walk terminates and emits the chain of masters |
| MasterWalks.ChainIsAncestors | src/interfaces/src/plugin/subscription/operational.c:349-361 | that chain is exactly the ancestors, nearest first, and all of them |
| MasterWalks.WalksEnd | src/interfaces/src/plugin/subscription/operational.c:350-361 | in a closed cache the walks from all links end, each in fewer steps than there are links, if and only if no link is its own ancestor |
| MasterWalks.LowerLayerIf | src/interfaces/src/plugin/subscription/operational.c:398-424 | the double loop as written emits all links or none, depending on the queried link alone |
| MasterWalks.LowerLayerAsWritten | src/interfaces/src/plugin/subscription/operational.c:402-424 | with unique names it emits nothing, which is the converse of the ancestor relation if and only if no link has the queried one as its master |
| MasterWalks.IntendedStart | src/interfaces/src/plugin/subscription/operational.c:398-420 | started at the iterated link, the inner loop finds the queried name exactly for the links below it |
| MasterWalks.RepairedEmitsConverse | src/interfaces/src/plugin/subscription/operational.c:398-424 | on every closed acyclic cache with unique names the loop started at the iterated link emits exactly the converse of the ancestor relation |
| MasterWalks.BridgeExample | src/interfaces/src/plugin/subscription/operational.c:398-424 | a bridge with one port for which the loop as written is wrong |

## Left out

- RouteLists.RouteList.Add: linked lists are sequences of node objects, so the `next` pointers themselves are not modelled; node identity, ownership, sharing and release are.
- Routes.Route.Free: memory of strings and reference counts of libnl addresses are not tracked, only list nodes.
- RibLists.RibList.Add: the fixed size of the RIB name buffer is not modelled.
- RoutingCommon.CollectRibList: RIB descriptions are left out; they are written after the list is complete and read nowhere in the modelled code.
- RoutingCommon.FillHopList: the socket and link cache that the callback opens for every next hop always open here; in the source a failure skips that next hop.
- StaticRouteKernel.ChangesApplied: the kernel is an idealised IPv4 main table of static routes: whether a route is usable depends on its next hops alone and not on links or other routes, an addition with NLM_F_CREATE alone goes before the other routes of its destination and metric and is refused only if unusable or already there, and a deletion without next hops and metric takes the first route of its destination; the IPv6 table orders routes of one metric differently.
- StaticRouteDiffs.DiffReconciles: the configuration is that of one protocol instance and one address family, and the texts of its own addresses are canonical, so that parsing gives back the address that was printed; the callback for the other family is the same code on another stream.
- Ipv4AddressChanges.ChangeIp: address texts are taken as parsed, because the YANG types admit only valid ones; a netmask that does not parse is modelled.
- Ipv4AddressPasses.DiffReconciles: the kernel is taken to accept one IPv4 address with several prefix lengths, to refuse an exact duplicate, and to keep the secondary addresses when their primary is deleted, which Linux does only with promote_secondaries set.
- Ipv6AddressChanges.DiffReconciles: the kernel is taken to refuse an IPv6 address it already has, whatever its prefix length.
- Ipv4NeighborChanges.DiffReconciles: the kernel is taken to accept the creation of a known neighbour without changing it, as the Linux neighbour table does for NLM_F_CREATE alone; the route table treats the same flag otherwise.
- ChangeSubscription.ChangeInterfaces: the passes over name, description, type, enabled, mtu and the IPv6 neighbours are not modelled; the IPv6 neighbour file is a copy of the IPv4 one.
- StateTracker.Tracker.LinkCacheChange: the mutex and the manager thread are left out; a callback is atomic, as the mutex makes it.
- InterfaceTrees.HashToLy: creation of libyang nodes does not fail.
- InterfaceTrees.HashFromLy: reading drops neighbours and the IPv6 leaves in the source, and so in the model; signs and blanks before a number are not modelled.
- RouteRendering.GetRibRoutes: creation of libyang nodes does not fail, and the fixed sizes of the text buffers are not modelled.
- MasterWalks.HigherLayerIf: a cyclic relation or a master missing from the cache is excluded; there the source does not return or dereferences NULL.
- MasterWalks.LowerLayerIf: a cache in which the walk from the queried link does not end is excluded for the same reason.
- libnl, sysrepo, libyang and srpc internals: caches, parsing of addresses and table names are parameters; an iteration over changes is init, callbacks up to the first error, free.
- Failing allocation, logging, signal handling and plugin start-up.
- src/routing/persist.c: its only call is commented out.
- Statistics, interface-type tables, stub callbacks and one-line wrappers: they would only add easy members.
