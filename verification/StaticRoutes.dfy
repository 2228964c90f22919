/** The gathering half of apply_static_routes_changes (src/routing/subscription/change.c):
    one event stream is folded into two prefix indexes through one shared cursor. */
module StaticRoutes {
  import opened Wrappers
  import opened Sysrepo
  import opened NodeHeaps
  import opened NextHops
  import opened Routes
  import opened RouteLists
  import opened RouteListHashes

  /** One change of the sysrepo diff: operation, node name and node value. */
  datatype Event = Event(op: Operation, name: string, value: string)

  /** nl_addr_parse; None is its error return. */
  type AddrParser = string -> Option<NlAddr>

  // strncmp with the length of the literal accepts every name that starts with it
  predicate IsPrefixNode(name: string) { "destination-prefix" <= name }
  predicate IsDescriptionNode(name: string) { "description" <= name }
  predicate IsGatewayNode(name: string) { "next-hop-address" <= name }

  lemma NodeNamesExclusive(name: string)
    ensures !(IsPrefixNode(name) && IsDescriptionNode(name))
    ensures !(IsPrefixNode(name) && IsGatewayNode(name))
    ensures !(IsDescriptionNode(name) && IsGatewayNode(name))
  {
    assert "destination-prefix"[2] == 's' && "description"[2] == 's' && "next-hop-address"[0] == 'n';
    assert "destination-prefix"[3] == 't' && "description"[3] == 'c';
  }

  /** `routes_head`: the list head inside group `k` of one of the two indexes. */
  datatype Cursor = Cursor(created: bool, k: nat)

  datatype FoldState = FoldState(created: seq<Group>, deleted: seq<Group>, cursor: Option<Cursor>) {
    function Side(created: bool): seq<Group> {
      if created then this.created else deleted
    }

    function WithSide(created: bool, groups: seq<Group>): FoldState {
      if created then this.(created := groups) else this.(deleted := groups)
    }

    /** The cursor points at a group with at least one route, whose newest route has no
        next hop yet or a simple one. */
    predicate Sound() {
      cursor.Some? ==>
        var groups := Side(cursor.value.created);
        && cursor.value.k < |groups| && groups[cursor.value.k].routes != []
        && (groups[cursor.value.k].routes[0].hop.NoHop? || groups[cursor.value.k].routes[0].hop.SimpleView?)
    }
  }

  const START := FoldState([], [], None)

  function Describe(route: RouteView, text: string): RouteView {
    route.(description := Some(text))
  }

  function Gate(route: RouteView, gateway: NlAddr): RouteView
    requires route.hop.NoHop? || route.hop.SimpleView?
  {
    route.(hop := WithGateway(route.hop, gateway))
  }

  /** Replaces the newest route of the group under the cursor. */
  function ReplaceNewest(st: FoldState, route: RouteView): FoldState
    requires st.cursor.Some? && st.Sound()
  {
    var side, k := st.cursor.value.created, st.cursor.value.k;
    var groups := st.Side(side);
    st.WithSide(side, groups[k := groups[k].(routes := groups[k].routes[0 := route])])
  }

  function Newest(st: FoldState): RouteView
    requires st.cursor.Some? && st.Sound()
  {
    st.Side(st.cursor.value.created)[st.cursor.value.k].routes[0]
  }

  /** The switch body, for one event; None is the error exit. */
  function Step(st: FoldState, ev: Event, parse: AddrParser): Option<FoldState>
    requires st.Sound()
  {
    if ev.op.Modified? || ev.op.Moved? then Some(st)
    else if IsPrefixNode(ev.name) then
      var prefix := parse(ev.value);
      if prefix.None? then None else
        var groups := AddToGroups(st.Side(ev.op.Created?), prefix.value, EMPTY_ROUTE);
        Some(st.WithSide(ev.op.Created?, groups).(cursor := Some(Cursor(ev.op.Created?, Find(groups, prefix.value)))))
    else if IsDescriptionNode(ev.name) then
      if st.cursor.None? then None
      else Some(ReplaceNewest(st, Describe(Newest(st), ev.value)))
    else if IsGatewayNode(ev.name) then
      if st.cursor.None? then None else
        var gateway := parse(ev.value);
        if gateway.None? then None
        else Some(ReplaceNewest(st, Gate(Newest(st), gateway.value)))
    else Some(st)
  }

  lemma {:induction false} FindAdded(groups: seq<Group>, prefix: NlAddr, route: RouteView)
    ensures var added := AddToGroups(groups, prefix, route);
            var k := Find(added, prefix);
            && k == Find(groups, prefix) < |added| && added[k].prefix == prefix
            && added[k].routes != [] && added[k].routes[0] == route
  {
    if groups != [] && groups[0].prefix != prefix {
      FindAdded(groups[1..], prefix, route);
      assert AddToGroups(groups, prefix, route)[0] == groups[0];
      assert AddToGroups(groups, prefix, route)[1..] == AddToGroups(groups[1..], prefix, route);
    }
  }

  lemma StepSound(st: FoldState, ev: Event, parse: AddrParser)
    requires st.Sound()
    ensures Step(st, ev, parse).Some? ==> Step(st, ev, parse).value.Sound()
  {
    if parse(ev.value).Some? {
      FindAdded(st.Side(ev.op.Created?), parse(ev.value).value, EMPTY_ROUTE);
    }
  }

  function Fold(events: seq<Event>, parse: AddrParser): (r: Option<FoldState>)
    ensures r.Some? ==> r.value.Sound()
  {
    if events == [] then Some(START) else
      var n := |events| - 1;
      var before := Fold(events[..n], parse);
      if before.None? then None else
        StepSound(before.value, events[n], parse);
        Step(before.value, events[n], parse)
  }

  // ---- the event loop over the heap ----

  /** The two list heads and the cursor mean the fold state. */
  ghost predicate Means(newRoutes: RouteListHash, deleteRoutes: RouteListHash, cursor: RouteList?, st: FoldState)
    reads newRoutes, newRoutes.Repr, deleteRoutes, deleteRoutes.Repr
  {
    && newRoutes.Valid() && deleteRoutes.Valid() && newRoutes.Repr !! deleteRoutes.Repr
    && newRoutes.View == st.created && deleteRoutes.View == st.deleted
    && st.Sound()
    && match st.cursor
       case None => cursor == null
       case Some(c) =>
         var owner := if c.created then newRoutes else deleteRoutes;
         c.k < |owner.elems| && cursor == owner.elems[c.k].routes
  }

  /** Adds an empty route for the prefix and moves the cursor to its group. */
  method StartRoute(heap: NodeHeap, routes: RouteListHash, prefix: NlAddr) returns (cursor: RouteList?, ghost k: nat)
    requires routes.Valid() && heap !in routes.Repr
    modifies routes.Repr, heap
    ensures routes.Valid() && fresh(routes.Repr - old(routes.Repr)) && old(routes.Repr) <= routes.Repr
    ensures old(routes.elems) <= routes.elems
    ensures routes.View == AddToGroups(old(routes.View), prefix, EMPTY_ROUTE)
    ensures k == Find(routes.View, prefix) < |routes.elems| && cursor == routes.elems[k].routes
    ensures old(routes.Owned()) <= routes.Owned() && fresh(routes.Owned() - old(routes.Owned()))
    ensures heap.live == old(heap.live) + (routes.Owned() - old(routes.Owned()))
  {
    hide LinkedGroups, Union, AddToGroups, Find;
    var hop := new NextHop();
    var zero := new Route(hop);
    assert CloneRouteView(zero.View()) == EMPTY_ROUTE;
    routes.Add(heap, prefix, zero);
    FindAdded(old(routes.View), prefix, EMPTY_ROUTE);
    cursor, k := routes.Get(prefix);
  }

  method DescribeNewest(cursor: RouteList, text: string, ghost owner: RouteListHash, ghost k: nat)
    requires owner.Valid() && k < |owner.elems| && cursor == owner.elems[k].routes
    requires owner.View[k].routes != []
    modifies owner.Repr
    ensures owner.Valid() && owner.Repr == old(owner.Repr) && owner.elems == old(owner.elems)
    ensures owner.Owned() == old(owner.Owned())
    ensures owner.View == old(owner.View)[k := old(owner.View)[k].(routes :=
              old(owner.View)[k].routes[0 := Describe(old(owner.View)[k].routes[0], text)])]
  {
    hide Linked, Within, Union, RouteList.Owned;
    ghost var before := cursor.Repr;
    assert HoldsGroup(owner.elems[k], owner.View[k], owner.Owns[k]);
    assert owner.Apart(k, before);
    cursor.Lengths();
    cursor.SetHeadDescription(text);
    assert owner.Apart(k, before) by {
      forall i | 0 <= i < |owner.elems| && i != k
        ensures HoldsGroup(owner.elems[i], owner.View[i], owner.Owns[i])
      {
        assert old(HoldsGroup(owner.elems[i], owner.View[i], owner.Owns[i])) && owner.elems[i] in owner.elems;
      }
    }
    assert owner.Owns[k] + {} == owner.Owns[k];
    owner.Refresh(k, before, {});
  }

  method GateNewest(cursor: RouteList, gateway: NlAddr, ghost owner: RouteListHash, ghost k: nat)
    requires owner.Valid() && k < |owner.elems| && cursor == owner.elems[k].routes
    requires owner.View[k].routes != []
    requires owner.View[k].routes[0].hop.NoHop? || owner.View[k].routes[0].hop.SimpleView?
    modifies owner.Repr
    ensures owner.Valid() && owner.Repr == old(owner.Repr) && owner.elems == old(owner.elems)
    ensures owner.Owned() == old(owner.Owned())
    ensures owner.View == old(owner.View)[k := old(owner.View)[k].(routes :=
              old(owner.View)[k].routes[0 := Gate(old(owner.View)[k].routes[0], gateway)])]
  {
    hide Linked, Within, Union, RouteList.Owned;
    ghost var before := cursor.Repr;
    assert HoldsGroup(owner.elems[k], owner.View[k], owner.Owns[k]);
    assert owner.Apart(k, before);
    cursor.Lengths();
    cursor.SetHeadGateway(gateway);
    assert owner.Apart(k, before) by {
      forall i | 0 <= i < |owner.elems| && i != k
        ensures HoldsGroup(owner.elems[i], owner.View[i], owner.Owns[i])
      {
        assert old(HoldsGroup(owner.elems[i], owner.View[i], owner.Owns[i])) && owner.elems[i] in owner.elems;
      }
    }
    assert owner.Owns[k] + {} == owner.Owns[k];
    owner.Refresh(k, before, {});
  }

  /** One event with operation created or deleted; `routes` is the index of that side. */
  method HandleEvent(ev: Event, parse: AddrParser, heap: NodeHeap, newRoutes: RouteListHash,
      deleteRoutes: RouteListHash, cursor: RouteList?, ghost st: FoldState) returns (error: int, next: RouteList?)
    requires ev.op.Created? || ev.op.Deleted?
    requires Means(newRoutes, deleteRoutes, cursor, st)
    requires heap !in newRoutes.Repr && heap !in deleteRoutes.Repr
    modifies newRoutes.Repr, deleteRoutes.Repr, heap
    ensures fresh(newRoutes.Repr - old(newRoutes.Repr)) && fresh(deleteRoutes.Repr - old(deleteRoutes.Repr))
    ensures newRoutes.Valid() && deleteRoutes.Valid() && newRoutes.Repr !! deleteRoutes.Repr
    ensures error == if Step(st, ev, parse).Some? then 0 else -1
    ensures error == 0 ==> Means(newRoutes, deleteRoutes, next, Step(st, ev, parse).value)
    ensures old(newRoutes.Owned()) <= newRoutes.Owned() && fresh(newRoutes.Owned() - old(newRoutes.Owned()))
    ensures old(deleteRoutes.Owned()) <= deleteRoutes.Owned() && fresh(deleteRoutes.Owned() - old(deleteRoutes.Owned()))
    ensures heap.live == old(heap.live) + (newRoutes.Owned() - old(newRoutes.Owned()))
                                        + (deleteRoutes.Owned() - old(deleteRoutes.Owned()))
  {
    hide LinkedGroups, Union, AddToGroups, Find;
    StepSound(st, ev, parse);
    error, next := 0, cursor;
    if IsPrefixNode(ev.name) {
      var prefix := parse(ev.value);
      if prefix.None? {
        error := -1;
        return;
      }
      ghost var k: nat;
      if ev.op.Created? {
        next, k := StartRoute(heap, newRoutes, prefix.value);
      } else {
        next, k := StartRoute(heap, deleteRoutes, prefix.value);
      }
    } else if IsDescriptionNode(ev.name) {
      if cursor == null {
        error := -1;
        return;
      }
      DescribeNewest(cursor, ev.value, if st.cursor.value.created then newRoutes else deleteRoutes, st.cursor.value.k);
    } else if IsGatewayNode(ev.name) {
      if cursor == null {
        error := -1;
        return;
      }
      var gateway := parse(ev.value);
      if gateway.None? {
        error := -1;
        return;
      }
      GateNewest(cursor, gateway.value, if st.cursor.value.created then newRoutes else deleteRoutes, st.cursor.value.k);
    }
  }

  lemma {:induction false} FoldStaysFailed(events: seq<Event>, parse: AddrParser, n: nat)
    requires n <= |events| && Fold(events[..n], parse).None?
    ensures Fold(events, parse).None?
  {
    if n < |events| {
      assert events[..|events| - 1][..n] == events[..n];
      FoldStaysFailed(events[..|events| - 1], parse, n);
    } else {
      assert events[..n] == events;
    }
  }

  /** The event loop. */
  method GatherEvents(events: seq<Event>, parse: AddrParser, heap: NodeHeap, newRoutes: RouteListHash,
      deleteRoutes: RouteListHash)
      returns (error: int)
    requires newRoutes.Valid() && deleteRoutes.Valid() && newRoutes.Repr !! deleteRoutes.Repr
    requires newRoutes.View == [] && deleteRoutes.View == []
    requires newRoutes.Owned() == {} && deleteRoutes.Owned() == {}
    requires heap !in newRoutes.Repr && heap !in deleteRoutes.Repr
    modifies newRoutes.Repr, deleteRoutes.Repr, heap
    ensures newRoutes.Valid() && deleteRoutes.Valid() && newRoutes.Repr !! deleteRoutes.Repr
    ensures fresh(newRoutes.Repr - old(newRoutes.Repr)) && fresh(deleteRoutes.Repr - old(deleteRoutes.Repr))
    ensures error == if Fold(events, parse).Some? then 0 else -1
    ensures error == 0 ==> newRoutes.View == Fold(events, parse).value.created
                           && deleteRoutes.View == Fold(events, parse).value.deleted
    ensures fresh(newRoutes.Owned()) && fresh(deleteRoutes.Owned())
    ensures heap.live == old(heap.live) + newRoutes.Owned() + deleteRoutes.Owned()
  {
    hide Union, LinkedGroups, Step, AddToGroups, FoldState.Sound;
    error := 0;
    var routesHead: RouteList? := null;
    assert START.Sound() by { StartSound(); }
    for i := 0 to |events|
      invariant error == 0 && Fold(events[..i], parse).Some?
      invariant Means(newRoutes, deleteRoutes, routesHead, Fold(events[..i], parse).value)
      invariant heap !in newRoutes.Repr && heap !in deleteRoutes.Repr
      invariant fresh(newRoutes.Repr - old(newRoutes.Repr)) && fresh(deleteRoutes.Repr - old(deleteRoutes.Repr))
      invariant fresh(newRoutes.Owned()) && fresh(deleteRoutes.Owned())
      invariant heap.live == old(heap.live) + newRoutes.Owned() + deleteRoutes.Owned()
    {
      ghost var st := Fold(events[..i], parse).value;
      assert events[..i + 1][..i] == events[..i];
      if events[i].op.Created? || events[i].op.Deleted? {
        error, routesHead := HandleEvent(events[i], parse, heap, newRoutes, deleteRoutes, routesHead, st);
        if error != 0 {
          FoldStaysFailed(events, parse, i + 1);
          return;
        }
      } else {
        StepSkips(st, events[i], parse);
      }
    }
    assert events[..|events|] == events;
  }

  lemma StartSound()
    ensures START.Sound()
  {
  }

  /** Modified and moved nodes are ignored. */
  lemma StepSkips(st: FoldState, ev: Event, parse: AddrParser)
    requires st.Sound() && (ev.op.Modified? || ev.op.Moved?)
    ensures Step(st, ev, parse) == Some(st)
  {
  }
}
