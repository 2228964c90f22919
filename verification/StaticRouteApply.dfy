/** The applying half of apply_static_routes_changes (src/routing/subscription/change.c)
    with routing_apply_new_routes and routing_apply_delete_routes (src/routing/common.c). */
module StaticRouteApply {
  import opened Wrappers
  import opened NodeHeaps
  import opened NextHops
  import opened Routes
  import opened RouteLists
  import opened RouteListHashes
  import opened StaticRoutes

  /** What a request says about the route it means: destination and metric. */
  datatype RouteKey = RouteKey(prefix: NlAddr, metric: nat)

  /** One nexthop of a route; attributes that were not set are None. */
  datatype RequestHop = RequestHop(ifindex: Option<int>, gateway: Option<NlAddr>)

  /** Where a route leads. The plugin only asks for unicast routes. */
  datatype Hops = Unicast(hops: seq<RequestHop>) | SpecialRoute(kind: string)

  datatype Request =
    | AddRoute(key: RouteKey, hops: Hops)
    | DeleteRoute(key: RouteKey)

  datatype Installed = Installed(metric: nat, hops: Hops)

  /** The static routes of the main table, by destination; the routes of a destination
      stand in the order of their metrics. */
  type Table = map<NlAddr, seq<Installed>>

  function At(table: Table, prefix: NlAddr): seq<Installed> {
    if prefix in table then table[prefix] else []
  }

  /** An addition with NLM_F_CREATE alone goes before the routes of the same metric. */
  function Insert(routes: seq<Installed>, r: Installed): seq<Installed> {
    if routes == [] || r.metric <= routes[0].metric then [r] + routes
    else [routes[0]] + Insert(routes[1..], r)
  }

  /** A deletion without next hops means the first route of its metric, and with metric 0
      the first route of all. */
  predicate Meant(r: Installed, metric: nat) {
    metric == 0 || r.metric == metric
  }

  function Remove(routes: seq<Installed>, metric: nat): seq<Installed> {
    if routes == [] then []
    else if Meant(routes[0], metric) then routes[1..]
    else [routes[0]] + Remove(routes[1..], metric)
  }

  function Effect(table: Table, request: Request): Table {
    var prefix, metric := request.key.prefix, request.key.metric;
    match request
    case AddRoute(_, hops) => table[prefix := Insert(At(table, prefix), Installed(metric, hops))]
    case DeleteRoute(_) => table[prefix := Remove(At(table, prefix), metric)]
  }

  /** The kernel side of the netlink socket: the static routes of the main table, the
      requests received so far, and its answer (0 or an error) to each request. */
  class Kernel {
    var table: Table
    var requests: seq<Request>
    const answer: (Table, Request) -> int

    constructor (table: Table, answer: (Table, Request) -> int)
      ensures this.table == table && requests == [] && this.answer == answer
    {
      this.table, this.answer, requests := table, answer, [];
    }

    method Submit(request: Request) returns (error: int)
      modifies this
      ensures error == answer(old(table), request)
      ensures requests == old(requests) + [request]
      ensures table == if error == 0 then Effect(old(table), request) else old(table)
    {
      error := answer(table, request);
      requests := requests + [request];
      if error == 0 {
        table := Effect(table, request);
      }
    }
  }

  function ListHops(hops: seq<SimpleHop>): (r: seq<RequestHop>)
    ensures |r| == |hops|
    ensures forall i | 0 <= i < |hops| :: r[i] == RequestHop(Some(hops[i].ifindex), hops[i].addr)
  {
    seq(|hops|, i requires 0 <= i < |hops| => RequestHop(Some(hops[i].ifindex), hops[i].addr))
  }

  /** A simple hop sets only the attributes it has, and needs at least one; list hops
      set both. None is the error exit. */
  function HopsOf(hop: HopView): Option<Hops> {
    match hop
    case NoHop => Some(Unicast([]))
    case SpecialView(_) => Some(Unicast([]))
    case SimpleView(s) =>
      if s.ifName.None? && s.addr.None? then None
      else Some(Unicast([RequestHop(if s.ifName.Some? then Some(s.ifindex) else None, s.addr)]))
    case ListView(hops) => Some(Unicast(ListHops(hops)))
  }

  function AddRequest(prefix: NlAddr, route: RouteView): Option<Request> {
    match HopsOf(route.hop)
    case None => None
    case Some(hops) => Some(AddRoute(RouteKey(prefix, route.preference), hops))
  }

  function DeleteRequest(prefix: NlAddr, route: RouteView): Option<Request> {
    Some(DeleteRoute(RouteKey(prefix, route.preference)))
  }

  function RequestOf(add: bool, prefix: NlAddr, route: RouteView): Option<Request> {
    if add then AddRequest(prefix, route) else DeleteRequest(prefix, route)
  }

  /** The requests of one prefix, then of all prefixes, in loop order. */
  function ListRequests(add: bool, prefix: NlAddr, routes: seq<RouteView>): seq<Option<Request>> {
    if routes == [] then []
    else [RequestOf(add, prefix, routes[0])] + ListRequests(add, prefix, routes[1..])
  }

  function GroupRequests(add: bool, groups: seq<Group>): seq<Option<Request>> {
    if groups == [] then []
    else ListRequests(add, groups[0].prefix, groups[0].routes) + GroupRequests(add, groups[1..])
  }

  datatype Outcome = Outcome(table: Table, issued: seq<Request>, error: int)

  /** Issuing planned requests until the first one that cannot be built or is refused. */
  function Run(answer: (Table, Request) -> int, table: Table, plan: seq<Option<Request>>): Outcome
    decreases |plan|
  {
    if plan == [] then Outcome(table, [], 0)
    else if plan[0].None? then Outcome(table, [], -1)
    else if answer(table, plan[0].value) != 0 then Outcome(table, [plan[0].value], -1)
    else
      var rest := Run(answer, Effect(table, plan[0].value), plan[1..]);
      rest.(issued := [plan[0].value] + rest.issued)
  }

  lemma RunNothing(answer: (Table, Request) -> int, table: Table)
    ensures Run(answer, table, []) == Outcome(table, [], 0)
  {
  }

  function Then(first: Outcome, second: Outcome): Outcome {
    if first.error != 0 then first else second.(issued := first.issued + second.issued)
  }

  lemma {:induction false} RunSplit(answer: (Table, Request) -> int, table: Table, a: seq<Option<Request>>,
      b: seq<Option<Request>>)
    ensures var first := Run(answer, table, a);
            Run(answer, table, a + b) == Then(first, Run(answer, first.table, b))
    decreases |a|
  {
    hide Effect;
    if a == [] {
      assert a + b == b;
    } else {
      assert (a + b)[0] == a[0] && (a + b)[1..] == a[1..] + b;
      if a[0].Some? && answer(table, a[0].value) == 0 {
        RunSplit(answer, Effect(table, a[0].value), a[1..], b);
      }
    }
  }

  /** One round of the inner loop of either apply function. */
  method ApplyRoute(kernel: Kernel, add: bool, prefix: NlAddr, route: Route) returns (error: int)
    requires route.Valid()
    modifies kernel
    ensures var o := Run(kernel.answer, old(kernel.table), [RequestOf(add, prefix, old(route.View()))]);
            kernel.table == o.table && kernel.requests == old(kernel.requests) + o.issued && error == o.error
  {
    error := 0;
    var rc := 0;
    var key := RouteKey(prefix, route.preference);
    if !add {
      rc := kernel.Submit(DeleteRoute(key));
    } else {
      match route.nextHop.kind
      case KindSimple =>
        var simple := route.nextHop.value.simple;
        if simple.ifName.None? && simple.addr.None? {
          error := -1;
          return;
        }
        var ifindex := if simple.ifName.Some? then Some(simple.ifindex) else None;
        rc := kernel.Submit(AddRoute(key, Unicast([RequestHop(ifindex, simple.addr)])));
      case KindList =>
        var hops := BuildListHops(route.nextHop);
        rc := kernel.Submit(AddRoute(key, Unicast(hops)));
      case _ =>
        rc := kernel.Submit(AddRoute(key, Unicast([])));
    }
    if rc != 0 {
      error := -1;
    }
  }

  method BuildListHops(hop: NextHop) returns (hops: seq<RequestHop>)
    requires hop.Valid() && hop.kind == KindList
    ensures Some(Unicast(hops)) == HopsOf(hop.View())
  {
    hops := [];
    for i := 0 to |hop.value.elements|
      invariant |hops| == i
      invariant forall j | 0 <= j < i ::
                  hops[j] == RequestHop(Some(hop.value.elements[j].simple.ifindex), hop.value.elements[j].simple.addr)
    {
      var simple := hop.value.elements[i].simple;
      hops := hops + [RequestHop(Some(simple.ifindex), simple.addr)];
    }
    assert hops == ListHops(Contents(hop.value.elements));
  }

  lemma HoldsView(r: Route, view: RouteView, own: set<object>)
    requires Holds(r, view, own)
    ensures r.Valid() && r.View() == view
  {
  }

  method ApplyList(kernel: Kernel, add: bool, prefix: NlAddr, routes: RouteList) returns (error: int)
    requires routes.Valid() && kernel !in routes.Repr
    modifies kernel
    ensures var o := Run(kernel.answer, old(kernel.table), ListRequests(add, prefix, old(routes.View)));
            kernel.table == o.table && kernel.requests == old(kernel.requests) + o.issued && error == o.error
  {
    hide RequestOf, Effect, Run, RouteList.Valid, Holds;
    error := 0;
    ghost var view := routes.View;
    routes.Lengths();
    ghost var whole := Run(kernel.answer, kernel.table, ListRequests(add, prefix, view));
    for i := 0 to |routes.elems|
      invariant error == 0 && routes.Valid() && routes.View == view
      invariant var rest := Run(kernel.answer, kernel.table, ListRequests(add, prefix, view[i..]));
                && whole.table == rest.table && whole.error == rest.error
                && old(kernel.requests) + whole.issued == kernel.requests + rest.issued
    {
      routes.ElementAt(i);
      HoldsView(routes.elems[i], view[i], routes.Owns[i]);
      assert view[i..][0] == view[i] && view[i..][1..] == view[i + 1..];
      ghost var one := [RequestOf(add, prefix, view[i])];
      RunSplit(kernel.answer, kernel.table, one, ListRequests(add, prefix, view[i + 1..]));
      error := ApplyRoute(kernel, add, prefix, routes.elems[i]);
      if error != 0 {
        return;
      }
    }
    RunNothing(kernel.answer, kernel.table);
  }

  /** routing_apply_new_routes (add) and routing_apply_delete_routes (not add). */
  method ApplyRoutes(kernel: Kernel, add: bool, routes: RouteListHash) returns (error: int)
    requires routes.Valid() && kernel !in routes.Repr
    modifies kernel
    ensures var o := Run(kernel.answer, old(kernel.table), GroupRequests(add, old(routes.View)));
            kernel.table == o.table && kernel.requests == old(kernel.requests) + o.issued && error == o.error
  {
    hide ListRequests, Effect, Run, RouteList.Valid, LinkedGroups, Union;
    error := 0;
    ghost var view := routes.View;
    ghost var whole := Run(kernel.answer, kernel.table, GroupRequests(add, view));
    for i := 0 to |routes.elems|
      invariant error == 0 && routes.Valid() && routes.View == view
      invariant var rest := Run(kernel.answer, kernel.table, GroupRequests(add, view[i..]));
                && whole.table == rest.table && whole.error == rest.error
                && old(kernel.requests) + whole.issued == kernel.requests + rest.issued
    {
      routes.ElementAt(i);
      assert view[i..][0] == view[i] && view[i..][1..] == view[i + 1..];
      RunSplit(kernel.answer, kernel.table, ListRequests(add, view[i].prefix, view[i].routes),
        GroupRequests(add, view[i + 1..]));
      error := ApplyList(kernel, add, routes.elems[i].prefix, routes.elems[i].routes);
      if error != 0 {
        return;
      }
    }
    RunNothing(kernel.answer, kernel.table);
  }

  /** What the whole callback does to the kernel. */
  function ApplyChanges(answer: (Table, Request) -> int, table: Table, events: seq<Event>, parse: AddrParser,
      connected: bool): Outcome {
    match Fold(events, parse)
    case None => Outcome(table, [], -1)
    case Some(st) =>
      if !connected then Outcome(table, [], -1) else
        var added := Run(answer, table, GroupRequests(true, st.created));
        Then(added, Run(answer, added.table, GroupRequests(false, st.deleted)))
  }

  /** From opening the socket on: additions, then deletions, stopping at the first error. */
  method ApplyGathered(connected: bool, kernel: Kernel, newRoutes: RouteListHash, deleteRoutes: RouteListHash)
      returns (error: int)
    requires newRoutes.Valid() && deleteRoutes.Valid() && kernel !in newRoutes.Repr && kernel !in deleteRoutes.Repr
    modifies kernel
    ensures var added := Run(kernel.answer, old(kernel.table), GroupRequests(true, newRoutes.View));
            var o := if !connected then Outcome(old(kernel.table), [], -1)
                     else Then(added, Run(kernel.answer, added.table, GroupRequests(false, deleteRoutes.View)));
            kernel.table == o.table && kernel.requests == old(kernel.requests) + o.issued && error == o.error
  {
    hide LinkedGroups, Union, GroupRequests, Run;
    if !connected {
      return -1;
    }
    error := ApplyRoutes(kernel, true, newRoutes);
    if error == 0 {
      error := ApplyRoutes(kernel, false, deleteRoutes);
    }
  }

  /** The end of the callback, on every exit. */
  method ReleaseLists(heap: NodeHeap, newRoutes: RouteListHash, modifyRoutes: RouteListHash,
      deleteRoutes: RouteListHash)
    requires newRoutes.Valid() && modifyRoutes.Valid() && deleteRoutes.Valid()
    requires newRoutes.Repr !! modifyRoutes.Repr && newRoutes.Repr !! deleteRoutes.Repr
            && modifyRoutes.Repr !! deleteRoutes.Repr
    requires heap !in newRoutes.Repr && heap !in modifyRoutes.Repr && heap !in deleteRoutes.Repr
    requires newRoutes.Owned() + modifyRoutes.Owned() + deleteRoutes.Owned() <= heap.live
    modifies newRoutes.Repr, modifyRoutes.Repr, deleteRoutes.Repr, heap
    ensures heap.live == old(heap.live) - old(newRoutes.Owned()) - old(modifyRoutes.Owned()) - old(deleteRoutes.Owned())
  {
    hide Union, LinkedGroups;
    newRoutes.Free(heap);
    modifyRoutes.Free(heap);
    deleteRoutes.Free(heap);
  }

  /** apply_static_routes_changes. `connected` tells whether the netlink socket could be
      opened. Every list node is released on every exit. */
  method ApplyStaticRoutesChanges(events: seq<Event>, parse: AddrParser, connected: bool, kernel: Kernel,
      heap: NodeHeap)
      returns (error: int)
    modifies kernel, heap
    ensures var o := ApplyChanges(kernel.answer, old(kernel.table), events, parse, connected);
            kernel.table == o.table && kernel.requests == old(kernel.requests) + o.issued && error == o.error
    ensures heap.live == old(heap.live)
  {
    hide Union, LinkedGroups, Fold, GroupRequests, Run, RouteListHash.Valid, RouteListHash.Owned;
    var newRoutes := new RouteListHash();
    var modifyRoutes := new RouteListHash();
    var deleteRoutes := new RouteListHash();
    error := GatherEvents(events, parse, heap, newRoutes, deleteRoutes);
    if error == 0 {
      error := ApplyGathered(connected, kernel, newRoutes, deleteRoutes);
    }
    ReleaseLists(heap, newRoutes, modifyRoutes, deleteRoutes);
  }
}
