/** The effect of the static-route callback on the kernel table: failure containment for
    every kernel, exact success condition and result for a well-behaved one. */
module StaticRouteKernel {
  import opened Wrappers
  import opened Sequences
  import opened NextHops
  import opened Routes
  import opened RouteListHashes
  import opened StaticRoutes
  import opened StaticRouteApply
  import opened StaticRoutePlans
  import opened StaticRouteProperties

  type Answer = (Table, Request) -> int

  // ---- failure containment ----

  function Values(plan: seq<Option<Request>>): (r: seq<Request>)
    requires forall p | p in plan :: p.Some?
    ensures |r| == |plan| && forall i | 0 <= i < |plan| :: r[i] == plan[i].value
  {
    seq(|plan|, i requires 0 <= i < |plan| => plan[i].value)
  }

  function Effects(table: Table, requests: seq<Request>): Table
    decreases |requests|
  {
    if requests == [] then table else Effects(Effect(table, requests[0]), requests[1..])
  }

  /** The kernel accepts each request in the state that those before it have left. */
  ghost predicate Accepts(answer: Answer, table: Table, requests: seq<Request>) {
    forall i | 0 <= i < |requests| :: answer(Effects(table, requests[..i]), requests[i]) == 0
  }

  /** A run accepts a prefix of its plan and then stops: `n` requests took effect, and the
      next one, if any, cannot be built or is refused; nothing after it is issued. */
  ghost predicate StopsAt(answer: Answer, o: Outcome, table: Table, plan: seq<Option<Request>>, n: nat) {
    && n <= |plan| && (forall p | p in plan[..n] :: p.Some?)
    && o.table == Effects(table, Values(plan[..n]))
    && o.issued == Values(plan[..n]) + (if n < |plan| && plan[n].Some? then [plan[n].value] else [])
    && o.error == (if n == |plan| then 0 else -1)
    && (n < |plan| && plan[n].Some? ==> answer(o.table, plan[n].value) != 0)
    && Accepts(answer, table, Values(plan[..n]))
  }

  lemma NothingAccepted(answer: Answer, table: Table)
    ensures Accepts(answer, table, [])
  {
  }

  lemma AcceptsNext(answer: Answer, table: Table, r: Request, rest: seq<Request>)
    requires answer(table, r) == 0 && Accepts(answer, Effect(table, r), rest)
    ensures Accepts(answer, table, [r] + rest)
  {
    hide Effect;
    var all := [r] + rest;
    forall i | 0 <= i < |all|
      ensures answer(Effects(table, all[..i]), all[i]) == 0
    {
      if i > 0 {
        assert all[..i][1..] == rest[..i - 1] && all[i] == rest[i - 1];
      }
    }
  }

  lemma ValuesNext(plan: seq<Option<Request>>, m: nat)
    requires m < |plan| && plan[0].Some? && forall p | p in plan[1..][..m] :: p.Some?
    ensures forall p | p in plan[..m + 1] :: p.Some?
    ensures Values(plan[..m + 1]) == [plan[0].value] + Values(plan[1..][..m])
  {
    assert plan[..m + 1] == [plan[0]] + plan[1..][..m];
  }

  lemma {:induction false} RunStops(answer: Answer, table: Table, plan: seq<Option<Request>>) returns (n: nat)
    ensures StopsAt(answer, Run(answer, table, plan), table, plan, n)
    decreases |plan|
  {
    hide Accepts, Effect;
    if plan == [] || plan[0].None? || answer(table, plan[0].value) != 0 {
      n := 0;
      NothingAccepted(answer, table);
    } else {
      var m := RunStops(answer, Effect(table, plan[0].value), plan[1..]);
      n := m + 1;
      ValuesNext(plan, m);
      assert Values(plan[..n])[1..] == Values(plan[1..][..m]);
      AcceptsNext(answer, table, plan[0].value, Values(plan[1..][..m]));
    }
  }

  lemma StoppedIff(answer: Answer, o: Outcome, table: Table, plan: seq<Option<Request>>, n: nat)
    requires StopsAt(answer, o, table, plan, n)
    ensures n <= |plan| && (o.error != 0 <==> n < |plan|)
  {
  }

  /** Whatever the kernel answers: an error while gathering or connecting issues nothing; an
      addition that fails leaves exactly the additions before it in index order, and no
      deletion is issued; a deletion that fails leaves all additions and exactly the
      deletions before it. */
  lemma FailureContained(answer: Answer, table: Table, events: seq<Event>, parse: AddrParser, connected: bool)
      returns (adds: seq<Option<Request>>, deletes: seq<Option<Request>>, added: Outcome, removed: Outcome,
      n: nat, m: nat)
    ensures var o := ApplyChanges(answer, table, events, parse, connected);
            if Fold(events, parse).None? || !connected then
              o == Outcome(table, [], -1)
            else
              && InOrder(adds, true, Fold(events, parse).value.created)
              && InOrder(deletes, false, Fold(events, parse).value.deleted)
              && StopsAt(answer, added, table, adds, n) && StopsAt(answer, removed, added.table, deletes, m)
              && o == if n < |adds| then added else Outcome(removed.table, added.issued + removed.issued, removed.error)
  {
    adds, deletes, n, m := [], [], 0, 0;
    added, removed := Outcome(table, [], 0), Outcome(table, [], 0);
    if Fold(events, parse).Some? && connected {
      hide InOrder, StopsAt, Run;
      var st := Fold(events, parse).value;
      adds, deletes := GroupRequests(true, st.created), GroupRequests(false, st.deleted);
      PlanInOrder(true, st.created);
      PlanInOrder(false, st.deleted);
      added := Run(answer, table, adds);
      removed := Run(answer, added.table, deletes);
      n := RunStops(answer, table, adds);
      m := RunStops(answer, added.table, deletes);
      StoppedIff(answer, added, table, adds, n);
    }
  }

  /** With distinct created prefixes, stated over the entries of the stream: the created ones
      are asked for in stream order, and a refusal of entry `n` leaves exactly the entries
      before it installed and ends the callback. */
  lemma RefusedEntry(answer: Answer, table: Table, events: seq<Event>, parse: AddrParser)
      returns (n: nat, requests: seq<Request>)
    requires Blocks(events, parse).Some? && Distinct(Prefixes(Blocks(events, parse).value, true))
    ensures var created := OfSide(Blocks(events, parse).value, true);
            var o := ApplyChanges(answer, table, events, parse, true);
            && |requests| == |created| && n <= |created|
            && (forall i | 0 <= i < |created| :: Asks(Some(requests[i]), true, created[i].prefix, created[i].route))
            && Accepts(answer, table, requests[..n])
            && (if n < |created| then
                  && answer(Effects(table, requests[..n]), requests[n]) != 0
                  && o == Outcome(Effects(table, requests[..n]), requests[..n + 1], -1)
                else requests <= o.issued)
  {
    hide Fold, Blocks, ApplyChanges, InOrder, StopsAt, Asks, Accepts, Effects, Distinct, Gateable;
    var blocks := Blocks(events, parse).value;
    FoldIsGather(events, parse);
    BlocksPlannable(events, parse);
    var adds, deletes, added, removed, k, m := FailureContained(answer, table, events, parse, true);
    StreamOrder(blocks, true, adds);
    requests := SideRequests(blocks, adds);
    n := k;
    StoppedRun(answer, table, adds, requests, added, n);
  }

  lemma SideRequests(blocks: seq<Block>, plan: seq<Option<Request>>) returns (requests: seq<Request>)
    requires AllBlocksPlannable(blocks) && |plan| == |OfSide(blocks, true)|
    requires forall i | 0 <= i < |plan| ::
               Asks(plan[i], true, OfSide(blocks, true)[i].prefix, OfSide(blocks, true)[i].route)
    ensures |requests| == |plan| && forall i | 0 <= i < |plan| :: plan[i] == Some(requests[i])
  {
    hide Asks, Plannable;
    SinglesAreSide(blocks, true);
    forall i | 0 <= i < |plan|
      ensures plan[i].Some?
    {
      CanBeAsked(plan[i], OfSide(blocks, true)[i].prefix, OfSide(blocks, true)[i].route);
    }
    requests := Values(plan);
  }

  lemma StoppedRun(answer: Answer, table: Table, plan: seq<Option<Request>>, requests: seq<Request>, o: Outcome, n: nat)
    requires |requests| == |plan| && forall i | 0 <= i < |plan| :: plan[i] == Some(requests[i])
    requires StopsAt(answer, o, table, plan, n)
    ensures n <= |plan| && Accepts(answer, table, requests[..n])
    ensures n < |plan| ==>
              && answer(Effects(table, requests[..n]), requests[n]) != 0
              && o == Outcome(Effects(table, requests[..n]), requests[..n + 1], -1)
    ensures n == |plan| ==> o.issued == requests && o.error == 0
  {
    hide Accepts, Effects;
    assert Values(plan[..n]) == requests[..n];
    if n < |plan| {
      assert requests[..n] + [requests[n]] == requests[..n + 1];
    } else {
      assert requests[..n] == requests;
    }
  }

  lemma CanBeAsked(request: Option<Request>, prefix: NlAddr, route: RouteView)
    requires Asks(request, true, prefix, route) && Plannable(route)
    ensures request.Some?
  {
  }

  // ---- a well-behaved kernel ----

  /** Which routes the kernel can use at all, as far as their next hops go: Linux, for one,
      refuses a unicast route without any. */
  type Usable = Hops -> bool

  /** Refuses an addition exactly when the route is not usable or the very same route is
      there already, and a deletion exactly when no route is meant by it. */
  ghost predicate WellBehaved(answer: Answer, usable: Usable) {
    forall table, request ::
      answer(table, request) == 0 <==>
        var present := At(table, request.key.prefix);
        match request
        case AddRoute(key, hops) => usable(hops) && Installed(key.metric, hops) !in present
        case DeleteRoute(key) => exists r | r in present :: Meant(r, key.metric)
  }

  // The plugin sets no preference, so all its requests have metric 0.

  predicate AllAdds(plan: seq<Option<Request>>) {
    forall p | p in plan :: p.Some? && p.value.AddRoute? && p.value.key.metric == 0
  }

  predicate AllDeletes(plan: seq<Option<Request>>) {
    forall p | p in plan :: p.Some? && p.value.DeleteRoute? && p.value.key.metric == 0
  }

  /** What the additions of a plan put before the routes of a prefix. */
  function Pushed(plan: seq<Option<Request>>, prefix: NlAddr): seq<Installed>
    requires AllAdds(plan)
  {
    if plan == [] then [] else
      var r := plan[0].value;
      Pushed(plan[1..], prefix) + if r.key.prefix == prefix then [Installed(0, r.hops)] else []
  }

  function Popped(plan: seq<Option<Request>>, prefix: NlAddr): nat
    requires AllDeletes(plan)
  {
    if plan == [] then 0 else Popped(plan[1..], prefix) + if plan[0].value.key.prefix == prefix then 1 else 0
  }

  /** The new routes are usable and differ from one another and from the present ones. */
  ghost predicate Addable(usable: Usable, added: seq<Installed>, present: seq<Installed>) {
    Distinct(added) && forall r | r in added :: usable(r.hops) && r !in present
  }

  lemma AddableSnoc(usable: Usable, s: seq<Installed>, x: Installed, present: seq<Installed>)
    ensures Addable(usable, s + [x], present) <==> usable(x.hops) && x !in present && Addable(usable, s, [x] + present)
  {
    var t := s + [x];
    assert t[|s|] == x && forall i | 0 <= i < |s| :: t[i] == s[i];
    assert forall y :: y in t <==> y in s || y == x;
    assert forall y :: y in [x] + present <==> y == x || y in present;
    if Addable(usable, s, [x] + present) {
      forall i, j | 0 <= i < j < |t|
        ensures t[i] != t[j]
      {
        assert s[i] in s;
      }
    }
    if Addable(usable, t, present) {
      forall i | 0 <= i < |s|
        ensures s[i] !in [x] + present
      {
        assert t[i] in t && t[i] != t[|s|];
      }
    }
  }

  lemma NextAt(table: Table, r: Request, prefix: NlAddr)
    requires r.key.metric == 0
    ensures At(Effect(table, r), prefix) ==
            if prefix != r.key.prefix then At(table, prefix)
            else if r.AddRoute? then [Installed(0, r.hops)] + At(table, prefix)
            else if At(table, prefix) == [] then [] else At(table, prefix)[1..]
  {
  }

  lemma PushedStep(plan: seq<Option<Request>>, prefix: NlAddr)
    requires AllAdds(plan) && plan != []
    ensures var pushed := Pushed(plan[1..], prefix);
            var r := plan[0].value;
            Pushed(plan, prefix) == if prefix == r.key.prefix then pushed + [Installed(0, r.hops)] else pushed
  {
  }

  lemma Stacked<T>(pushed: seq<T>, x: T, present: seq<T>)
    ensures pushed + ([x] + present) == (pushed + [x]) + present
  {
  }

  lemma {:induction false} AddsSucceedIff(answer: Answer, usable: Usable, table: Table, plan: seq<Option<Request>>)
    requires WellBehaved(answer, usable) && AllAdds(plan)
    ensures var o := Run(answer, table, plan);
            && (o.error == 0 <==> forall prefix :: Addable(usable, Pushed(plan, prefix), At(table, prefix)))
            && (o.error == 0 ==> forall prefix :: At(o.table, prefix) == Pushed(plan, prefix) + At(table, prefix))
    decreases |plan|
  {
    if plan == [] {
      assert forall prefix :: Pushed(plan, prefix) == [];
    } else {
      var r, rest, next := plan[0].value, plan[1..], Effect(table, plan[0].value);
      var new0, prefix0 := Installed(0, r.hops), r.key.prefix;
      AddsSucceedIff(answer, usable, next, rest);
      assert answer(table, r) == 0 <==> usable(r.hops) && new0 !in At(table, prefix0);
      hide Addable, Effect, Pushed, At, WellBehaved;
      AddableSnoc(usable, Pushed(rest, prefix0), new0, At(table, prefix0));
      Stacked(Pushed(rest, prefix0), new0, At(table, prefix0));
      forall prefix
        ensures Pushed(plan, prefix) ==
                if prefix == prefix0 then Pushed(rest, prefix) + [new0] else Pushed(rest, prefix)
        ensures At(next, prefix) == if prefix == prefix0 then [new0] + At(table, prefix) else At(table, prefix)
      {
        PushedStep(plan, prefix);
        NextAt(table, r, prefix);
      }
    }
  }

  lemma {:induction false} DeletesSucceedIff(answer: Answer, usable: Usable, table: Table, plan: seq<Option<Request>>)
    requires WellBehaved(answer, usable) && AllDeletes(plan)
    ensures var o := Run(answer, table, plan);
            && (o.error == 0 <==> forall prefix :: Popped(plan, prefix) <= |At(table, prefix)|)
            && (o.error == 0 ==> forall prefix :: At(o.table, prefix) == At(table, prefix)[Popped(plan, prefix)..])
    decreases |plan|
  {
    if plan == [] {
      assert forall prefix :: Popped(plan, prefix) == 0;
    } else {
      var r := plan[0].value;
      var rest, next, prefix0 := plan[1..], Effect(table, r), r.key.prefix;
      DeletesSucceedIff(answer, usable, next, rest);
      assert answer(table, r) == 0 <==> At(table, prefix0) != [] by {
        if At(table, prefix0) != [] {
          assert At(table, prefix0)[0] in At(table, prefix0);
        }
      }
      forall prefix
        ensures Popped(plan, prefix) == Popped(rest, prefix) + if prefix == prefix0 then 1 else 0
        ensures At(next, prefix) ==
                if prefix == prefix0 && At(table, prefix) != [] then At(table, prefix)[1..] else At(table, prefix)
      {
        NextAt(table, r, prefix);
      }
      hide Effect;
      assert Popped(plan, prefix0) == Popped(rest, prefix0) + 1;
    }
  }

  // ---- the plan of a gathered side ----

  /** Every gathered route has metric 0 and a next hop that a request can carry. */
  predicate Plannable(route: RouteView) {
    route.preference == 0 && HopsOf(route.hop).Some?
  }

  predicate AllPlannable(groups: seq<Group>) {
    forall g | g in groups :: forall r | r in g.routes :: Plannable(r)
  }

  lemma {:induction false} ListPlan(prefix: NlAddr, routes: seq<RouteView>)
    requires forall r | r in routes :: Plannable(r)
    ensures AllAdds(ListRequests(true, prefix, routes)) && AllDeletes(ListRequests(false, prefix, routes))
    ensures forall asked | asked != prefix ::
              && Pushed(ListRequests(true, prefix, routes), asked) == []
              && Popped(ListRequests(false, prefix, routes), asked) == 0
  {
    if routes != [] {
      ListPlan(prefix, routes[1..]);
      assert Plannable(routes[0]);
      assert ListRequests(true, prefix, routes)[1..] == ListRequests(true, prefix, routes[1..]);
      assert ListRequests(false, prefix, routes)[1..] == ListRequests(false, prefix, routes[1..]);
    }
  }

  lemma {:induction false} GroupPlan(groups: seq<Group>)
    requires AllPlannable(groups)
    ensures AllAdds(GroupRequests(true, groups)) && AllDeletes(GroupRequests(false, groups))
  {
    if groups != [] {
      GroupPlan(groups[1..]);
      ListPlan(groups[0].prefix, groups[0].routes);
    }
  }

  lemma {:induction false} PushedAppend(a: seq<Option<Request>>, b: seq<Option<Request>>, asked: NlAddr)
    requires AllAdds(a) && AllAdds(b)
    ensures Pushed(a + b, asked) == Pushed(b, asked) + Pushed(a, asked)
    decreases |a|
  {
    if a == [] {
      assert a + b == b;
    } else {
      assert (a + b)[0] == a[0] && (a + b)[1..] == a[1..] + b;
      PushedAppend(a[1..], b, asked);
    }
  }

  lemma {:induction false} PoppedAppend(a: seq<Option<Request>>, b: seq<Option<Request>>, asked: NlAddr)
    requires AllDeletes(a) && AllDeletes(b)
    ensures Popped(a + b, asked) == Popped(a, asked) + Popped(b, asked)
    decreases |a|
  {
    if a == [] {
      assert a + b == b;
    } else {
      assert (a + b)[0] == a[0] && (a + b)[1..] == a[1..] + b;
      PoppedAppend(a[1..], b, asked);
    }
  }

  /** AddToGroups, one group at a time. */
  lemma AddedHead(groups: seq<Group>, prefix: NlAddr, route: RouteView)
    ensures AddToGroups(groups, prefix, route) ==
            if groups == [] then [Group(prefix, [route])]
            else if groups[0].prefix == prefix then [Group(prefix, [route] + groups[0].routes)] + groups[1..]
            else [groups[0]] + AddToGroups(groups[1..], prefix, route)
  {
  }

  lemma AddedPlannable(groups: seq<Group>, prefix: NlAddr, route: RouteView)
    requires AllPlannable(groups) && Plannable(route)
    ensures AllPlannable(AddToGroups(groups, prefix, route))
  {
    hide Plannable;
    var k := Find(groups, prefix);
    if k < |groups| {
      assert groups[k] in groups;
    }
  }

  /** The requests of the groups with one more route: the old ones and one new one, which
      comes before the others of its group. */
  lemma AddedRequests(add: bool, groups: seq<Group>, prefix: NlAddr, route: RouteView)
    requires groups == [] || groups[0].prefix == prefix
    ensures GroupRequests(add, AddToGroups(groups, prefix, route)) ==
            [RequestOf(add, prefix, route)] + GroupRequests(add, groups)
  {
    hide RequestOf;
    AddedHead(groups, prefix, route);
    if groups == [] {
      assert ListRequests(add, prefix, [route]) == [RequestOf(add, prefix, route)];
    } else {
      assert ([route] + groups[0].routes)[1..] == groups[0].routes;
    }
  }

  lemma {:induction false} AddedPushed(groups: seq<Group>, prefix: NlAddr, route: RouteView, asked: NlAddr)
    requires AllPlannable(groups) && Plannable(route)
    ensures AllAdds(GroupRequests(true, groups)) && AllAdds(GroupRequests(true, AddToGroups(groups, prefix, route)))
    ensures Pushed(GroupRequests(true, AddToGroups(groups, prefix, route)), asked) ==
            Pushed(GroupRequests(true, groups), asked)
            + if asked == prefix then [Installed(0, HopsOf(route.hop).value)] else []
  {
    AddedPlannable(groups, prefix, route);
    GroupPlan(groups);
    GroupPlan(AddToGroups(groups, prefix, route));
    hide AddToGroups, Find, AllPlannable;
    if groups == [] || groups[0].prefix == prefix {
      AddedRequests(true, groups, prefix, route);
      assert ([RequestOf(true, prefix, route)] + GroupRequests(true, groups))[1..] == GroupRequests(true, groups);
    } else {
      var head := ListRequests(true, groups[0].prefix, groups[0].routes);
      PlannableParts(groups);
      AddedHead(groups, prefix, route);
      AddedPushed(groups[1..], prefix, route, asked);
      ListPlan(groups[0].prefix, groups[0].routes);
      PushedAppend(head, GroupRequests(true, groups[1..]), asked);
      PushedAppend(head, GroupRequests(true, AddToGroups(groups[1..], prefix, route)), asked);
    }
  }

  lemma PlannableParts(groups: seq<Group>)
    requires AllPlannable(groups) && groups != []
    ensures AllPlannable(groups[1..]) && forall r | r in groups[0].routes :: Plannable(r)
  {
    assert groups[0] in groups;
  }

  lemma {:induction false} AddedPopped(groups: seq<Group>, prefix: NlAddr, route: RouteView, asked: NlAddr)
    requires AllPlannable(groups) && Plannable(route)
    ensures AllDeletes(GroupRequests(false, groups))
            && AllDeletes(GroupRequests(false, AddToGroups(groups, prefix, route)))
    ensures Popped(GroupRequests(false, AddToGroups(groups, prefix, route)), asked) ==
            Popped(GroupRequests(false, groups), asked) + if asked == prefix then 1 else 0
  {
    AddedPlannable(groups, prefix, route);
    GroupPlan(groups);
    GroupPlan(AddToGroups(groups, prefix, route));
    hide AddToGroups, Find, AllPlannable;
    if groups == [] || groups[0].prefix == prefix {
      AddedRequests(false, groups, prefix, route);
      assert ([RequestOf(false, prefix, route)] + GroupRequests(false, groups))[1..] == GroupRequests(false, groups);
    } else {
      var head := ListRequests(false, groups[0].prefix, groups[0].routes);
      PlannableParts(groups);
      AddedHead(groups, prefix, route);
      AddedPopped(groups[1..], prefix, route, asked);
      ListPlan(groups[0].prefix, groups[0].routes);
      PoppedAppend(head, GroupRequests(false, groups[1..]), asked);
      PoppedAppend(head, GroupRequests(false, AddToGroups(groups[1..], prefix, route)), asked);
    }
  }

  // ---- the blocks of a stream, seen from the kernel ----

  ghost predicate AllBlocksPlannable(blocks: seq<Block>) {
    forall b | b in blocks :: Plannable(b.route)
  }

  /** The routes of the created blocks of a prefix, in arrival order. */
  function NewRoutes(blocks: seq<Block>, prefix: NlAddr): seq<Installed>
    requires AllBlocksPlannable(blocks)
  {
    if blocks == [] then [] else
      var last := blocks[|blocks| - 1];
      NewRoutes(blocks[..|blocks| - 1], prefix)
      + if last.created && last.prefix == prefix then [Installed(0, HopsOf(last.route.hop).value)] else []
  }

  /** How many deleted blocks a prefix has. */
  function Removals(blocks: seq<Block>, prefix: NlAddr): nat {
    if blocks == [] then 0 else
      var last := blocks[|blocks| - 1];
      Removals(blocks[..|blocks| - 1], prefix) + if !last.created && last.prefix == prefix then 1 else 0
  }

  lemma {:induction false} GatheredPlannable(blocks: seq<Block>, created: bool)
    requires AllBlocksPlannable(blocks)
    ensures AllPlannable(Gather(blocks, created))
    ensures AllAdds(GroupRequests(true, Gather(blocks, created)))
    ensures AllDeletes(GroupRequests(false, Gather(blocks, created)))
  {
    hide Plannable;
    if blocks != [] {
      var n := |blocks| - 1;
      GatheredPlannable(blocks[..n], created);
      AddedPlannable(Gather(blocks[..n], created), blocks[n].prefix, blocks[n].route);
    }
    GroupPlan(Gather(blocks, created));
  }

  lemma {:induction false} GatheredPushed(blocks: seq<Block>, prefix: NlAddr)
    requires AllBlocksPlannable(blocks)
    ensures AllAdds(GroupRequests(true, Gather(blocks, true)))
    ensures Pushed(GroupRequests(true, Gather(blocks, true)), prefix) == NewRoutes(blocks, prefix)
  {
    GatheredPlannable(blocks, true);
    if blocks != [] {
      var n := |blocks| - 1;
      GatheredPushed(blocks[..n], prefix);
      GatheredPlannable(blocks[..n], true);
      AddedPushed(Gather(blocks[..n], true), blocks[n].prefix, blocks[n].route, prefix);
    }
  }

  lemma {:induction false} GatheredPopped(blocks: seq<Block>, prefix: NlAddr)
    requires AllBlocksPlannable(blocks)
    ensures AllDeletes(GroupRequests(false, Gather(blocks, false)))
    ensures Popped(GroupRequests(false, Gather(blocks, false)), prefix) == Removals(blocks, prefix)
  {
    GatheredPlannable(blocks, false);
    if blocks != [] {
      var n := |blocks| - 1;
      GatheredPopped(blocks[..n], prefix);
      GatheredPlannable(blocks[..n], false);
      AddedPopped(Gather(blocks[..n], false), blocks[n].prefix, blocks[n].route, prefix);
    }
  }

  lemma {:induction false} BlocksPlannable(events: seq<Event>, parse: AddrParser)
    requires Blocks(events, parse).Some?
    ensures AllBlocksPlannable(Blocks(events, parse).value)
  {
    if events != [] {
      BlocksPlannable(events[..|events| - 1], parse);
    }
  }

  // ---- the whole callback ----

  ghost predicate Accepted(usable: Usable, table: Table, blocks: seq<Block>)
    requires AllBlocksPlannable(blocks)
  {
    forall prefix ::
      && Addable(usable, NewRoutes(blocks, prefix), At(table, prefix))
      && Removals(blocks, prefix) <= |NewRoutes(blocks, prefix)| + |At(table, prefix)|
  }

  /** What a prefix holds afterwards: the created routes in arrival order before the old
      ones, without as many of the first as the stream deletes. */
  function Expected(table: Table, blocks: seq<Block>, prefix: NlAddr): seq<Installed>
    requires AllBlocksPlannable(blocks)
  {
    var stacked := NewRoutes(blocks, prefix) + At(table, prefix);
    var removed := Removals(blocks, prefix);
    if removed <= |stacked| then stacked[removed..] else []
  }

  /** For every stream that can be gathered and every table: the callback succeeds exactly
      when every created route is usable and new at its prefix and every deletion has a
      route to take away; then every prefix holds what is expected of it. */
  lemma ChangesApplied(answer: Answer, usable: Usable, table: Table, events: seq<Event>, parse: AddrParser,
      connected: bool)
    requires WellBehaved(answer, usable) && Blocks(events, parse).Some?
    ensures AllBlocksPlannable(Blocks(events, parse).value)
    ensures var blocks := Blocks(events, parse).value;
            var o := ApplyChanges(answer, table, events, parse, connected);
            && (o.error == 0 <==> connected && Accepted(usable, table, blocks))
            && (o.error == 0 ==> forall prefix :: At(o.table, prefix) == Expected(table, blocks, prefix))
  {
    hide Gather, GroupRequests, Run, WellBehaved, Addable, Pushed, Popped, NewRoutes, Removals, AllAdds, AllDeletes;
    var blocks := Blocks(events, parse).value;
    FoldIsGather(events, parse);
    BlocksPlannable(events, parse);
    var adds, deletes := GroupRequests(true, Gather(blocks, true)), GroupRequests(false, Gather(blocks, false));
    GatheredPlannable(blocks, true);
    GatheredPlannable(blocks, false);
    var added := Run(answer, table, adds);
    AddsSucceedIff(answer, usable, table, adds);
    DeletesSucceedIff(answer, usable, added.table, deletes);
    forall prefix
      ensures Pushed(adds, prefix) == NewRoutes(blocks, prefix)
      ensures Popped(deletes, prefix) == Removals(blocks, prefix)
    {
      GatheredPushed(blocks, prefix);
      GatheredPopped(blocks, prefix);
    }
  }

  lemma NothingToAdd(usable: Usable, present: seq<Installed>)
    ensures Addable(usable, [], present)
  {
  }

  lemma {:induction false} NewRoutesMember(blocks: seq<Block>, b: Block)
    requires AllBlocksPlannable(blocks) && b in blocks && b.created
    ensures Installed(0, HopsOf(b.route.hop).value) in NewRoutes(blocks, b.prefix)
  {
    var n := |blocks| - 1;
    if blocks[n] != b {
      NewRoutesMember(blocks[..n], b);
    }
  }

  /** Every created prefix that is not also deleted is installed with its own block's next hop. */
  lemma CreatedCarryOwnHop(answer: Answer, usable: Usable, table: Table, events: seq<Event>, parse: AddrParser,
      b: Block)
    requires WellBehaved(answer, usable) && Blocks(events, parse).Some?
    requires b in Blocks(events, parse).value && b.created && Removals(Blocks(events, parse).value, b.prefix) == 0
    requires ApplyChanges(answer, table, events, parse, true).error == 0
    ensures var o := ApplyChanges(answer, table, events, parse, true);
            HopsOf(b.route.hop).Some? && Installed(0, HopsOf(b.route.hop).value) in At(o.table, b.prefix)
  {
    hide NewRoutes, Blocks, ApplyChanges;
    ChangesApplied(answer, usable, table, events, parse, true);
    NewRoutesMember(Blocks(events, parse).value, b);
  }

  /** A prefix that one stream both creates and deletes, as when a route moves to another
      protocol instance: the new route is put first and then taken away again, so an
      installed prefix keeps its old routes and an absent one stays absent; and the callback
      fails when the new route equals an installed one. */
  lemma CreatedAndDeleted(answer: Answer, usable: Usable, table: Table, events: seq<Event>, parse: AddrParser,
      prefix: NlAddr)
    requires WellBehaved(answer, usable) && Blocks(events, parse).Some?
    requires AllBlocksPlannable(Blocks(events, parse).value)
    requires var blocks := Blocks(events, parse).value;
             |NewRoutes(blocks, prefix)| == 1 && Removals(blocks, prefix) == 1
    ensures var o := ApplyChanges(answer, table, events, parse, true);
            && (o.error == 0 ==> At(o.table, prefix) == At(table, prefix))
            && (NewRoutes(Blocks(events, parse).value, prefix)[0] in At(table, prefix) ==> o.error != 0)
  {
    hide NewRoutes, Blocks, ApplyChanges;
    ChangesApplied(answer, usable, table, events, parse, true);
  }

  /** A stream without events that the switch acts on, such as one that only modifies or
      moves leaves, reports success and reaches no kernel. */
  lemma {:induction false} ModificationsAreLost(answer: Answer, table: Table, events: seq<Event>, parse: AddrParser)
    requires Essential(events) == []
    ensures ApplyChanges(answer, table, events, parse, true) == Outcome(table, [], 0)
  {
    NoiseIsIgnored(events, parse);
    FoldIsGather(events, parse);
  }
}
