/** src/routing/common.c: building the RIB index from the flat kernel route cache. */
module RoutingCommon {
  import opened Wrappers
  import opened NodeHeaps
  import opened NextHops
  import opened Routes
  import opened RouteLists
  import opened RouteListHashes
  import opened RibLists

  // rtnetlink route types and protocols used by the source
  const RTN_LOCAL := 2
  const RTN_BLACKHOLE := 6
  const RTN_UNREACHABLE := 7
  const RTN_PROHIBIT := 8
  const RTPROT_STATIC := 4

  datatype KernelHop = KernelHop(ifindex: int, gateway: Option<NlAddr>)

  /** One entry of the libnl route cache. */
  datatype KernelRoute = KernelRoute(
    table: int, family: int, routeType: int, priority: nat, protocol: int, dst: NlAddr, hops: seq<KernelHop>)

  /** Name lookups that the source leaves to libnl: rtnl_route_table2str and the link cache. */
  datatype Names = Names(table: int -> string, link: int -> string)

  predicate IsSpecial(routeType: int) {
    routeType == RTN_BLACKHOLE || routeType == RTN_UNREACHABLE || routeType == RTN_PROHIBIT || routeType == RTN_LOCAL
  }

  function SpecialName(routeType: int): string
    requires IsSpecial(routeType)
  {
    if routeType == RTN_BLACKHOLE then "blackhole"
    else if routeType == RTN_UNREACHABLE then "unreachable"
    else if routeType == RTN_PROHIBIT then "prohibit"
    else "local"
  }

  function SimpleOf(hop: KernelHop, names: Names): SimpleHop {
    SimpleHop(hop.gateway, hop.ifindex, Some(names.link(hop.ifindex)))
  }

  function SimplesOf(hops: seq<KernelHop>, names: Names): (r: seq<SimpleHop>)
    ensures |r| == |hops|
    ensures forall i | 0 <= i < |hops| :: r[i] == SimpleOf(hops[i], names)
  {
    seq(|hops|, i requires 0 <= i < |hops| => SimpleOf(hops[i], names))
  }

  function HopOf(route: KernelRoute, names: Names): HopView {
    if IsSpecial(route.routeType) then SpecialView(Some(SpecialName(route.routeType)))
    else if |route.hops| == 1 then SimpleView(SimpleOf(route.hops[0], names))
    else if route.hops == [] then NoHop
    else ListView(SimplesOf(route.hops, names))
  }

  /** What the index stores for one cache entry, before the selection. */
  function RouteOf(route: KernelRoute, names: Names): (view: RouteView)
    ensures Clonable(view.hop)
  {
    RouteView(
      route.priority,
      false,
      Some(if route.protocol == RTPROT_STATIC then "ietf-routing:static" else "ietf-routing:direct"),
      None,
      None,
      HopOf(route, names))
  }

  lemma StoredUnchanged(route: KernelRoute, names: Names)
    ensures CloneRouteView(RouteOf(route, names)) == RouteOf(route, names)
  {
    CloneIsFaithful(RouteOf(route, names));
  }

  predicate IsMain(name: string) {
    "main" <= name
  }

  /** First pass, one cache entry. */
  function CollectRib(ribs: seq<RibView>, route: KernelRoute, names: Names): seq<RibView> {
    var name := names.table(route.table);
    var added := AddRib(ribs, name, route.family);
    var k := FindRib(added, name, route.family);
    if IsMain(name) && k < |added| then added[k := added[k].(isDefault := true)] else added
  }

  function CollectRibs(ribs: seq<RibView>, cache: seq<KernelRoute>, names: Names): seq<RibView> {
    if cache == [] then ribs
    else CollectRib(CollectRibs(ribs, cache[..|cache| - 1], names), cache[|cache| - 1], names)
  }

  function RibIndex(ribs: seq<RibView>, route: KernelRoute, names: Names): nat {
    FindRib(ribs, names.table(route.table), route.family)
  }

  /** Second pass, one cache entry. */
  function PlaceRoute(ribs: seq<RibView>, route: KernelRoute, names: Names): seq<RibView> {
    var k := RibIndex(ribs, route, names);
    if k < |ribs| then
      ribs[k := ribs[k].(groups := AddToGroups(ribs[k].groups, route.dst, RouteOf(route, names)))]
    else ribs
  }

  function PlaceRoutes(ribs: seq<RibView>, cache: seq<KernelRoute>, names: Names): seq<RibView> {
    if cache == [] then ribs
    else PlaceRoute(PlaceRoutes(ribs, cache[..|cache| - 1], names), cache[|cache| - 1], names)
  }

  // ---- every RIB lookup of the second pass succeeds ----

  ghost predicate SameKeys(a: seq<RibView>, b: seq<RibView>) {
    && |a| == |b|
    && forall i | 0 <= i < |a| :: a[i].name == b[i].name && a[i].family == b[i].family
  }

  lemma {:induction false} SameKeysFind(a: seq<RibView>, b: seq<RibView>, name: string, family: int)
    requires SameKeys(a, b)
    ensures FindRib(a, name, family) == FindRib(b, name, family)
  {
    if a != [] {
      assert SameKeys(a[1..], b[1..]);
      SameKeysFind(a[1..], b[1..], name, family);
    }
  }

  lemma {:induction false} FindAppend(ribs: seq<RibView>, rib: RibView, name: string, family: int)
    ensures FindRib(ribs, name, family) < |ribs| ==> FindRib(ribs + [rib], name, family) == FindRib(ribs, name, family)
    ensures FindRib(ribs, name, family) == |ribs| ==>
              FindRib(ribs + [rib], name, family) ==
              if rib.name == name && rib.family == family then |ribs| else |ribs| + 1
  {
    if ribs != [] {
      assert (ribs + [rib])[0] == ribs[0] && (ribs + [rib])[1..] == ribs[1..] + [rib];
      FindAppend(ribs[1..], rib, name, family);
    }
  }

  lemma CollectRibKeeps(ribs: seq<RibView>, route: KernelRoute, names: Names, name: string, family: int)
    ensures var after := CollectRib(ribs, route, names);
            && (FindRib(ribs, name, family) < |ribs| ==> FindRib(after, name, family) == FindRib(ribs, name, family))
            && RibIndex(after, route, names) < |after|
            && |ribs| <= |after|
  {
    var table := names.table(route.table);
    var added := AddRib(ribs, table, route.family);
    FindAppend(ribs, RibView(table, route.family, false, []), table, route.family);
    FindAppend(ribs, RibView(table, route.family, false, []), name, family);
    var after := CollectRib(ribs, route, names);
    SameKeysFind(added, after, table, route.family);
    SameKeysFind(added, after, name, family);
  }

  lemma {:induction false} RibFound(ribs: seq<RibView>, cache: seq<KernelRoute>, names: Names, i: nat)
    requires i < |cache|
    ensures RibIndex(CollectRibs(ribs, cache, names), cache[i], names) < |CollectRibs(ribs, cache, names)|
  {
    hide FindRib, AddRib, CollectRib;
    var n := |cache| - 1;
    var before := CollectRibs(ribs, cache[..n], names);
    CollectRibKeeps(before, cache[n], names, names.table(cache[i].table), cache[i].family);
    if i < n {
      RibFound(ribs, cache[..n], names, i);
    }
  }

  lemma {:induction false} PlaceKeepsKeys(ribs: seq<RibView>, cache: seq<KernelRoute>, names: Names)
    ensures SameKeys(PlaceRoutes(ribs, cache, names), ribs)
  {
    if cache != [] {
      PlaceKeepsKeys(ribs, cache[..|cache| - 1], names);
    }
  }

  /** Two-pass consistency: whatever part of the cache the second pass has placed, its
      lookup for any route of the cache finds the RIB that the first pass created. */
  lemma SecondPassFinds(ribs: seq<RibView>, cache: seq<KernelRoute>, names: Names, placed: nat, i: nat)
    requires placed <= |cache| && i < |cache|
    ensures var now := PlaceRoutes(CollectRibs(ribs, cache, names), cache[..placed], names);
            RibIndex(now, cache[i], names) < |now|
  {
    var all := CollectRibs(ribs, cache, names);
    RibFound(ribs, cache, names, i);
    PlaceKeepsKeys(all, cache[..placed], names);
    SameKeysFind(all, PlaceRoutes(all, cache[..placed], names), names.table(cache[i].table), cache[i].family);
  }

  // ---- the passes over the heap ----

  method CollectRibList(cache: seq<KernelRoute>, names: Names, heap: NodeHeap, ribs: RibList) returns (error: int)
    requires ribs.Valid() && heap !in ribs.Repr
    modifies ribs.Repr, heap
    ensures error == 0
    ensures ribs.Valid() && fresh(ribs.Repr - old(ribs.Repr)) && old(ribs.Repr) <= ribs.Repr
    ensures ribs.View == CollectRibs(old(ribs.View), cache, names)
    ensures old(ribs.Owned()) <= ribs.Owned() && fresh(ribs.Owned() - old(ribs.Owned()))
    ensures heap.live == old(heap.live) + (ribs.Owned() - old(ribs.Owned()))
  {
    hide LinkedRibs, Union, FindRib, AddRib;
    error := 0;
    for i := 0 to |cache|
      invariant ribs.Valid() && fresh(ribs.Repr - old(ribs.Repr)) && old(ribs.Repr) <= ribs.Repr
      invariant ribs.View == CollectRibs(old(ribs.View), cache[..i], names)
      invariant old(ribs.Owned()) <= ribs.Owned() && fresh(ribs.Owned() - old(ribs.Owned()))
      invariant heap.live == old(heap.live) + (ribs.Owned() - old(ribs.Owned()))
    {
      assert cache[..i + 1][..i] == cache[..i];
      var tableName := names.table(cache[i].table);
      ribs.Add(heap, tableName, cache[i].family);
      if IsMain(tableName) {
        var _ := ribs.SetDefault(tableName, cache[i].family, true);
      }
    }
    assert cache[..|cache|] == cache;
  }

  /** The switch that fills the next-hop container of the temporary route. */
  method FillNextHop(route: KernelRoute, names: Names, heap: NodeHeap, hop: NextHop)
    requires hop.Valid() && hop.kind == KindNone
    modifies hop, heap
    ensures hop.Valid() && hop.View() == HopOf(route, names)
    ensures fresh(hop.Nodes()) && heap.live == old(heap.live) + hop.Nodes()
  {
    if route.routeType == RTN_BLACKHOLE {
      hop.SetSpecial(Some("blackhole"));
    } else if route.routeType == RTN_UNREACHABLE {
      hop.SetSpecial(Some("unreachable"));
    } else if route.routeType == RTN_PROHIBIT {
      hop.SetSpecial(Some("prohibit"));
    } else if route.routeType == RTN_LOCAL {
      hop.SetSpecial(Some("local"));
    } else if |route.hops| == 1 {
      var nh := route.hops[0];
      hop.SetSimple(nh.ifindex, names.link(nh.ifindex), nh.gateway);
    } else {
      FillHopList(route.hops, names, heap, hop);
    }
  }

  /** rtnl_route_foreach_nexthop with foreach_nexthop as its callback. */
  method FillHopList(hops: seq<KernelHop>, names: Names, heap: NodeHeap, hop: NextHop)
    requires hop.Valid() && hop.kind == KindNone
    modifies hop, heap
    ensures hop.Valid() && hop.View() == if hops == [] then NoHop else ListView(SimplesOf(hops, names))
    ensures fresh(hop.Nodes()) && heap.live == old(heap.live) + hop.Nodes()
  {
    for i := 0 to |hops|
      invariant hop.Valid()
      invariant hop.View() == if i == 0 then NoHop else ListView(SimplesOf(hops[..i], names))
      invariant fresh(hop.Nodes()) && heap.live == old(heap.live) + hop.Nodes()
    {
      hop.AddList(heap, hops[i].ifindex, names.link(hops[i].ifindex), hops[i].gateway);
    }
    assert hops[..|hops|] == hops;
  }

  method FillRoute(route: KernelRoute, names: Names, heap: NodeHeap, tmp: Route)
    requires tmp.Valid()
    modifies tmp, tmp.nextHop, heap
    ensures tmp.Valid() && tmp.View() == RouteOf(route, names)
    ensures fresh(tmp.HopNodes()) && heap.live == old(heap.live) + tmp.HopNodes()
  {
    tmp.Init();
    tmp.SetPreference(route.priority);
    FillNextHop(route, names, heap, tmp.nextHop);
    if route.protocol == RTPROT_STATIC {
      tmp.SetSourceProtocol(Some("ietf-routing:static"));
    } else {
      tmp.SetSourceProtocol(Some("ietf-routing:direct"));
    }
  }

  /** One round of the second pass: fill the temporary, store a copy, free the temporary. */
  method CollectRoute(route: KernelRoute, names: Names, heap: NodeHeap, ribs: RibList, tmp: Route) returns (error: int)
    requires ribs.Valid() && heap !in ribs.Repr
    requires tmp.Valid() && tmp !in ribs.Repr && tmp.nextHop !in ribs.Repr
    modifies ribs.Repr, heap, tmp, tmp.nextHop
    ensures ribs.Valid() && fresh(ribs.Repr - old(ribs.Repr)) && old(ribs.Repr) <= ribs.Repr
    ensures tmp.Valid()
    ensures error == if RibIndex(old(ribs.View), route, names) < |old(ribs.View)| then 0 else -1
    ensures ribs.View == PlaceRoute(old(ribs.View), route, names)
    ensures old(ribs.Owned()) <= ribs.Owned() && fresh(ribs.Owned() - old(ribs.Owned()))
    ensures heap.live == old(heap.live) + (ribs.Owned() - old(ribs.Owned()))
  {
    hide LinkedRibs, Union, FindRib, AddToGroups, CloneRouteView;
    var tmpRib, k := ribs.Get(names.table(route.table), route.family);
    if tmpRib == null {
      return -1;
    }
    FillRoute(route, names, heap, tmp);
    StoredUnchanged(route, names);
    ghost var hops := tmp.HopNodes();
    ribs.AddRoute(heap, tmpRib, k, route.dst, tmp);
    assert tmp.HopNodes() == hops;
    tmp.Free(heap);
    error := 0;
  }

  method CollectRoutes(cache: seq<KernelRoute>, names: Names, heap: NodeHeap, ribs: RibList) returns (error: int)
    requires ribs.Valid() && heap !in ribs.Repr
    modifies ribs.Repr, heap
    ensures error == 0
    ensures ribs.Valid() && fresh(ribs.Repr - old(ribs.Repr))
    ensures ribs.View == SelectInRibs(PlaceRoutes(CollectRibs(old(ribs.View), cache, names), cache, names))
    ensures old(ribs.Owned()) <= ribs.Owned() && fresh(ribs.Owned() - old(ribs.Owned()))
    ensures heap.live == old(heap.live) + (ribs.Owned() - old(ribs.Owned()))
  {
    hide LinkedRibs, Union, FindRib, PlaceRoute, CollectRib;
    error := CollectRibList(cache, names, heap, ribs);
    if error != 0 {
      return;
    }
    ghost var first := ribs.View;
    var hop := new NextHop();
    var tmpRoute := new Route(hop);
    for i := 0 to |cache|
      invariant error == 0
      invariant ribs.Valid() && fresh(ribs.Repr - old(ribs.Repr)) && heap !in ribs.Repr
      invariant tmpRoute.Valid() && tmpRoute !in ribs.Repr && tmpRoute.nextHop !in ribs.Repr
      invariant ribs.View == PlaceRoutes(first, cache[..i], names)
      invariant old(ribs.Owned()) <= ribs.Owned() && fresh(ribs.Owned() - old(ribs.Owned()))
      invariant heap.live == old(heap.live) + (ribs.Owned() - old(ribs.Owned()))
    {
      SecondPassFinds(old(ribs.View), cache, names, i, i);
      assert cache[..i + 1][..i] == cache[..i];
      error := CollectRoute(cache[i], names, heap, ribs, tmpRoute);
      if error != 0 {
        return;
      }
    }
    assert cache[..|cache|] == cache;
    ribs.SelectActive();
  }
}
