/** Which requests the static-route loops send for an index, and in which order, told by
    positions alone. */
module StaticRoutePlans {
  import opened Wrappers
  import opened Sequences
  import opened NextHops
  import opened Routes
  import opened RouteListHashes
  import opened StaticRouteApply
  import opened StaticRouteProperties

  /** How many routes the first `g` groups hold. */
  function Offset(groups: seq<Group>, g: nat): nat
    requires g <= |groups|
  {
    if g == 0 then 0 else Offset(groups, g - 1) + |groups[g - 1].routes|
  }

  /** The next hops of a route as the kernel is told them, attribute by attribute. */
  ghost predicate Carries(hops: Hops, hop: HopView) {
    hops.Unicast? &&
    match hop
    case NoHop => hops.hops == []
    case SpecialView(_) => hops.hops == []
    case SimpleView(simple) =>
      && |hops.hops| == 1 && hops.hops[0].gateway == simple.addr
      && (hops.hops[0].ifindex.Some? <==> simple.ifName.Some?)
      && (simple.ifName.Some? ==> hops.hops[0].ifindex.value == simple.ifindex)
    case ListView(list) =>
      && |hops.hops| == |list|
      && forall i | 0 <= i < |list| ::
           hops.hops[i].gateway == list[i].addr && hops.hops[i].ifindex == Some(list[i].ifindex)
  }

  /** The request asks for this route of this prefix; an addition cannot be built exactly
      for a simple next hop with neither interface name nor address. */
  ghost predicate Asks(request: Option<Request>, add: bool, prefix: NlAddr, route: RouteView) {
    if add then
      && (request.None? <==> route.hop.SimpleView? && route.hop.simple.ifName.None? && route.hop.simple.addr.None?)
      && (request.Some? ==>
            && request.value.AddRoute? && Carries(request.value.hops, route.hop)
            && request.value.key.prefix == prefix && request.value.key.metric == route.preference)
    else
      && request.Some? && request.value.DeleteRoute?
      && request.value.key.prefix == prefix && request.value.key.metric == route.preference
  }

  /** The plan asks for route `r` of group `g` behind all routes of the groups before `g` and
      the first `r` of its own, and for nothing else. */
  ghost predicate InOrder(plan: seq<Option<Request>>, add: bool, groups: seq<Group>) {
    && |plan| == Offset(groups, |groups|)
    && forall g, r | 0 <= g < |groups| && 0 <= r < |groups[g].routes| ::
         && Offset(groups, g) + r < |plan|
         && Asks(plan[Offset(groups, g) + r], add, groups[g].prefix, groups[g].routes[r])
  }

  lemma RequestAsks(add: bool, prefix: NlAddr, route: RouteView)
    ensures Asks(RequestOf(add, prefix, route), add, prefix, route)
  {
  }

  lemma {:induction false} ListInOrder(add: bool, prefix: NlAddr, routes: seq<RouteView>)
    ensures |ListRequests(add, prefix, routes)| == |routes|
    ensures forall r | 0 <= r < |routes| :: Asks(ListRequests(add, prefix, routes)[r], add, prefix, routes[r])
  {
    if routes != [] {
      hide RequestOf, Asks;
      RequestAsks(add, prefix, routes[0]);
      ListInOrder(add, prefix, routes[1..]);
    }
  }

  lemma {:induction false} OffsetNext(groups: seq<Group>, g: nat)
    requires 0 < g <= |groups|
    ensures Offset(groups, g) == |groups[0].routes| + Offset(groups[1..], g - 1)
  {
    if g > 1 {
      OffsetNext(groups, g - 1);
    }
  }

  lemma {:induction false} OffsetMonotone(groups: seq<Group>, g: nat, h: nat)
    requires g <= h <= |groups|
    ensures Offset(groups, g) <= Offset(groups, h)
  {
    if g < h {
      OffsetMonotone(groups, g, h - 1);
    }
  }

  /** The loops ask for the routes in index order, group by group. */
  lemma {:induction false} PlanInOrder(add: bool, groups: seq<Group>)
    ensures InOrder(GroupRequests(add, groups), add, groups)
  {
    if groups != [] {
      hide Asks, ListRequests, InOrder;
      var first := ListRequests(add, groups[0].prefix, groups[0].routes);
      var rest := GroupRequests(add, groups[1..]);
      ListInOrder(add, groups[0].prefix, groups[0].routes);
      PlanInOrder(add, groups[1..]);
      GroupInOrder(first, rest, add, groups);
    } else {
      assert GroupRequests(add, groups) == [];
    }
  }

  lemma GroupInOrder(first: seq<Option<Request>>, rest: seq<Option<Request>>, add: bool, groups: seq<Group>)
    requires groups != [] && |first| == |groups[0].routes|
    requires forall r | 0 <= r < |first| :: Asks(first[r], add, groups[0].prefix, groups[0].routes[r])
    requires InOrder(rest, add, groups[1..])
    ensures InOrder(first + rest, add, groups)
  {
    hide Asks;
    OffsetNext(groups, |groups|);
    forall g, r | 0 <= g < |groups| && 0 <= r < |groups[g].routes|
      ensures Offset(groups, g) + r < |first + rest|
      ensures Asks((first + rest)[Offset(groups, g) + r], add, groups[g].prefix, groups[g].routes[r])
    {
      if g > 0 {
        OffsetNext(groups, g);
        assert groups[1..][g - 1].routes[r] == groups[g].routes[r];
      }
    }
  }

  // ---- the order of the event stream ----

  /** The blocks of one side, in the order of the stream. */
  function OfSide(blocks: seq<Block>, created: bool): seq<Block> {
    if blocks == [] then [] else
      var last := blocks[|blocks| - 1];
      OfSide(blocks[..|blocks| - 1], created) + if last.created == created then [last] else []
  }

  lemma {:induction false} SinglesAreSide(blocks: seq<Block>, created: bool)
    ensures |Singles(blocks, created)| == |OfSide(blocks, created)|
    ensures forall i | 0 <= i < |OfSide(blocks, created)| ::
              var b := OfSide(blocks, created)[i];
              b.created == created && b in blocks && Singles(blocks, created)[i] == Group(b.prefix, [b.route])
  {
    if blocks != [] {
      SinglesAreSide(blocks[..|blocks| - 1], created);
    }
  }

  lemma {:induction false} SinglesOffset(groups: seq<Group>, g: nat)
    requires g <= |groups| && forall group | group in groups :: |group.routes| == 1
    ensures Offset(groups, g) == g
  {
    if g > 0 {
      SinglesOffset(groups, g - 1);
    }
  }

  /** With distinct prefixes, request `i` is that of the `i`-th created (or deleted) entry of
      the stream. */
  lemma StreamOrder(blocks: seq<Block>, created: bool, plan: seq<Option<Request>>)
    requires Distinct(Prefixes(blocks, created)) && InOrder(plan, created, Gather(blocks, created))
    ensures var side := OfSide(blocks, created);
            && |plan| == |side|
            && forall i | 0 <= i < |side| :: Asks(plan[i], created, side[i].prefix, side[i].route)
  {
    hide Asks, Gather, Distinct;
    OneRoutePerPrefix(blocks, created);
    SinglesAreSide(blocks, created);
    var groups := Singles(blocks, created);
    SinglesOffset(groups, |groups|);
    forall i | 0 <= i < |groups|
      ensures Asks(plan[i], created, OfSide(blocks, created)[i].prefix, OfSide(blocks, created)[i].route)
    {
      SinglesOffset(groups, i);
      assert groups[i] == Group(OfSide(blocks, created)[i].prefix, [OfSide(blocks, created)[i].route]);
      assert groups[i].routes[0] == OfSide(blocks, created)[i].route;
    }
  }
}
