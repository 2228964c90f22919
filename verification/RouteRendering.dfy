/** routing_oper_get_rib_routes_cb (src/routing/subscription/operational.c): collecting the
    index, emitting one entry per route, and releasing the index again. */
module RouteRendering {
  import opened Wrappers
  import opened Decimals
  import opened NodeHeaps
  import opened NextHops
  import opened Routes
  import opened RouteLists
  import opened RouteListHashes
  import opened RibLists
  import opened RoutingCommon

  const AF_INET := 2
  const AF_INET6 := 10

  /** Which of the two unicast-routing modules the libyang context has. */
  datatype Modules = Modules(v4: bool, v6: bool)

  datatype HopEntry = HopEntry(outgoingInterface: string, nextHopAddress: Option<string>)

  /** One `route` list entry under the routes container of a RIB. */
  datatype Entry = Entry(
    path: string,
    preference: string,
    hops: seq<HopEntry>,
    destinationPrefix: Option<string>,
    sourceProtocol: Option<string>,
    active: bool)

  const RIB_LIST_PATH := "/ietf-routing:routing/ribs/rib"

  function FamilyName(family: int): string {
    if family == AF_INET then "ipv4" else "ipv6"
  }

  function RibPath(name: string, family: int): string {
    RIB_LIST_PATH + "[name='" + FamilyName(family) + "-" + name + "']/routes"
  }

  /** nl_addr2str leaves out a full-length prefix; the callback adds it. */
  function PrefixText(prefix: NlAddr): string {
    if '/' in prefix.text then prefix.text else prefix.text + "/" + Print(prefix.prefixLen)
  }

  /** Whether the unicast module of this family is there to carry addresses. */
  predicate Carries(family: int, modules: Modules) {
    (family == AF_INET && modules.v4) || (family == AF_INET6 && modules.v6)
  }

  function DefaultText(family: int): string {
    if family == AF_INET then "0.0.0.0/0" else "::/0"
  }

  /** The in-loop rewrite: strncmp over the length of the buffer matches every text that
      "none/0" starts with. */
  function Rewritten(text: string, family: int): string {
    if text <= "none/0" then DefaultText(family) else text
  }

  lemma RewriteOnce(text: string, family: int)
    ensures Rewritten(Rewritten(text, family), family) == Rewritten(text, family)
  {
    assert "0.0.0.0/0"[0] == '0' && "::/0"[0] == ':' && "none/0"[0] == 'n';
  }

  function HopEntryOf(hop: SimpleHop, family: int, modules: Modules, names: Names): HopEntry {
    HopEntry(names.link(hop.ifindex),
      if hop.addr.Some? && Carries(family, modules) then Some(hop.addr.value.text) else None)
  }

  function HopEntriesOf(hops: seq<SimpleHop>, family: int, modules: Modules, names: Names): (r: seq<HopEntry>)
    ensures |r| == |hops| && forall i | 0 <= i < |r| :: r[i] == HopEntryOf(hops[i], family, modules, names)
  {
    seq(|hops|, i requires 0 <= i < |hops| => HopEntryOf(hops[i], family, modules, names))
  }

  function HopsOf(hop: HopView, family: int, modules: Modules, names: Names): seq<HopEntry> {
    match hop
    case NoHop => []
    case SpecialView(_) => []
    case SimpleView(s) => [HopEntryOf(s, family, modules, names)]
    case ListView(hops) => HopEntriesOf(hops, family, modules, names)
  }

  /** The entry of one route, from its RIB, its prefix and its own data alone. */
  function EntryOf(name: string, family: int, prefix: NlAddr, route: RouteView, modules: Modules, names: Names): Entry {
    Entry(
      RibPath(name, family),
      Print(route.preference),
      HopsOf(route.hop, family, modules, names),
      if Carries(family, modules) then Some(Rewritten(PrefixText(prefix), family)) else None,
      route.sourceProtocol,
      route.active)
  }

  function GroupEntries(name: string, family: int, group: Group, modules: Modules, names: Names): (r: seq<Entry>)
    ensures |r| == |group.routes|
    ensures forall i | 0 <= i < |r| :: r[i] == EntryOf(name, family, group.prefix, group.routes[i], modules, names)
  {
    seq(|group.routes|, i requires 0 <= i < |group.routes| =>
      EntryOf(name, family, group.prefix, group.routes[i], modules, names))
  }

  function GroupsEntries(name: string, family: int, groups: seq<Group>, modules: Modules, names: Names): seq<Entry> {
    if groups == [] then []
    else GroupsEntries(name, family, groups[..|groups| - 1], modules, names)
         + GroupEntries(name, family, groups[|groups| - 1], modules, names)
  }

  function Entries(ribs: seq<RibView>, modules: Modules, names: Names): seq<Entry> {
    if ribs == [] then [] else
      var last := ribs[|ribs| - 1];
      Entries(ribs[..|ribs| - 1], modules, names) + GroupsEntries(last.name, last.family, last.groups, modules, names)
  }

  predicate IsListHop(hop: HopView) {
    hop.ListView? && hop.hops != []
  }

  predicate GroupHasList(group: Group) {
    exists r | r in group.routes :: IsListHop(r.hop)
  }

  predicate GroupsHaveList(groups: seq<Group>) {
    exists g | g in groups :: GroupHasList(g)
  }

  predicate RibsHaveList(ribs: seq<RibView>) {
    exists rib | rib in ribs :: GroupsHaveList(rib.groups)
  }

  // ---- the emission loops over the heap ----

  /** The next-hop switch. `error` is the callback's own variable: the list case stores
      the length of a formatted path in it. */
  method RenderHop(hop: NextHop, family: int, modules: Modules, names: Names, error: int)
      returns (next: int, hops: seq<HopEntry>)
    requires hop.Valid()
    ensures hops == HopsOf(hop.View(), family, modules, names)
    ensures next == 0 <==> (if IsListHop(hop.View()) then false else error == 0)
  {
    next, hops := error, [];
    match hop.kind
    case KindNone =>
    case KindSpecial =>
    case KindSimple =>
      hops := [HopEntryOf(hop.value.simple, family, modules, names)];
    case KindList =>
      ghost var contents := Contents(hop.value.elements);
      for i := 0 to |hop.value.elements|
        invariant |hops| == i && forall j | 0 <= j < i :: hops[j] == HopEntryOf(contents[j], family, modules, names)
        invariant next == 0 <==> i == 0 && error == 0
      {
        var simple := hop.value.elements[i].simple;
        var xpath := "next-hop/next-hop-list/next-hop[index=" + PrintInt(simple.ifindex) + "]";
        assert xpath[0] == 'n';
        next := |xpath|;
        hops := hops + [HopEntryOf(simple, family, modules, names)];
      }
      assert hops == HopEntriesOf(contents, family, modules, names);
  }

  function PrintInt(n: int): string {
    if n < 0 then "-" + Print(-n) else Print(n)
  }

  method RenderGroup(name: string, family: int, prefix: NlAddr, routes: RouteList, modules: Modules, names: Names,
      error: int)
      returns (next: int, entries: seq<Entry>)
    requires routes.Valid()
    ensures entries == GroupEntries(name, family, Group(prefix, routes.View), modules, names)
    ensures next == 0 <==> error == 0 && !GroupHasList(Group(prefix, routes.View))
  {
    hide RouteList.Valid, Holds, Print, RibPath, PrefixText, HopsOf, Rewritten;
    next, entries := error, [];
    var prefixBuffer := PrefixText(prefix);
    ghost var view := routes.View;
    routes.Lengths();
    for i := 0 to |routes.elems|
      invariant |entries| == i
      invariant forall j | 0 <= j < i :: entries[j] == EntryOf(name, family, prefix, view[j], modules, names)
      invariant prefixBuffer == PrefixText(prefix)
                || (Carries(family, modules) && prefixBuffer == Rewritten(PrefixText(prefix), family))
      invariant next == 0 <==> error == 0 && forall j | 0 <= j < i :: !IsListHop(view[j].hop)
    {
      routes.ElementAt(i);
      RouteMeaning(routes.elems[i], view[i], routes.Owns[i]);
      var route := routes.elems[i];
      var hops;
      next, hops := RenderHop(route.nextHop, family, modules, names, next);
      var destinationPrefix: Option<string> := None;
      if Carries(family, modules) {
        RewriteOnce(PrefixText(prefix), family);
        prefixBuffer := Rewritten(prefixBuffer, family);
        destinationPrefix := Some(prefixBuffer);
      }
      entries := entries + [Entry(RibPath(name, family), Print(route.preference), hops, destinationPrefix,
                                  route.sourceProtocol, route.active)];
    }
    assert entries == GroupEntries(name, family, Group(prefix, view), modules, names);
  }

  lemma RouteMeaning(r: Route, view: RouteView, own: set<object>)
    requires Holds(r, view, own)
    ensures r.nextHop.Valid() && r.nextHop.View() == view.hop
    ensures r.preference == view.preference && r.sourceProtocol == view.sourceProtocol && r.active == view.active
  {
  }

  method RenderRib(name: string, family: int, routes: RouteListHash, modules: Modules, names: Names, error: int)
      returns (next: int, entries: seq<Entry>)
    requires routes.Valid()
    ensures entries == GroupsEntries(name, family, routes.View, modules, names)
    ensures next == 0 <==> error == 0 && !GroupsHaveList(routes.View)
  {
    hide LinkedGroups, Union, RouteList.Valid, GroupHasList;
    next, entries := error, [];
    for i := 0 to |routes.elems|
      invariant entries == GroupsEntries(name, family, routes.View[..i], modules, names)
      invariant next == 0 <==> error == 0 && forall j | 0 <= j < i :: !GroupHasList(routes.View[j])
    {
      routes.ElementAt(i);
      assert routes.View[..i + 1][..i] == routes.View[..i];
      var more;
      next, more := RenderGroup(name, family, routes.elems[i].prefix, routes.elems[i].routes, modules, names, next);
      entries := entries + more;
    }
    assert routes.View[..|routes.elems|] == routes.View;
  }

  method RenderRibs(ribs: RibList, modules: Modules, names: Names, error: int) returns (next: int, entries: seq<Entry>)
    requires ribs.Valid()
    ensures entries == Entries(ribs.View, modules, names)
    ensures next == 0 <==> error == 0 && !RibsHaveList(ribs.View)
  {
    hide LinkedRibs, Union, RouteListHash.Valid, GroupsHaveList;
    next, entries := error, [];
    for i := 0 to |ribs.elems|
      invariant entries == Entries(ribs.View[..i], modules, names)
      invariant next == 0 <==> error == 0 && forall j | 0 <= j < i :: !GroupsHaveList(ribs.View[j].groups)
    {
      ribs.ElementAt(i);
      assert ribs.View[..i + 1][..i] == ribs.View[..i];
      var more;
      next, more := RenderRib(ribs.elems[i].name, ribs.elems[i].family, ribs.elems[i].routes, modules, names, next);
      entries := entries + more;
    }
    assert ribs.View[..|ribs.elems|] == ribs.View;
  }

  /** The callback: it leaks no node, emits the entries of the index, and fails exactly
      when some route of the index has a list next hop. */
  method GetRibRoutes(cache: seq<KernelRoute>, names: Names, modules: Modules, heap: NodeHeap)
      returns (failed: bool, entries: seq<Entry>)
    modifies heap
    ensures heap.live == old(heap.live)
    ensures var index := SelectInRibs(PlaceRoutes(CollectRibs([], cache, names), cache, names));
            entries == Entries(index, modules, names) && (failed <==> RibsHaveList(index))
  {
    hide LinkedRibs, Union, Entries, RibsHaveList, CollectRibs, PlaceRoutes, SelectInRibs;
    var ribsHead := new RibList();
    var error := CollectRoutes(cache, names, heap, ribsHead);
    error, entries := RenderRibs(ribsHead, modules, names, error);
    failed := error != 0;
    ribsHead.Free(heap);
  }
}
