/** src/routing/route/list.c: the list of routes behind one destination prefix. The
    utlist macros are sequence operations on the node objects; `RouteList` is the head
    pointer cell that the C functions take by address. */
module RouteLists {
  import opened Wrappers
  import opened NodeHeaps
  import opened NextHops
  import opened Routes

  /** Union of a sequence of node sets. */
  ghost function Union(owns: seq<set<object>>): set<object> {
    if owns == [] then {} else owns[0] + Union(owns[1..])
  }

  ghost predicate PairwiseDisjoint(owns: seq<set<object>>) {
    forall i, j | 0 <= i < j < |owns| :: owns[i] !! owns[j]
  }

  lemma {:induction false} UnionMember(owns: seq<set<object>>, i: nat)
    requires i < |owns|
    ensures owns[i] <= Union(owns)
  {
    if i > 0 {
      UnionMember(owns[1..], i - 1);
    }
  }

  lemma {:induction false} UnionFrom(owns: seq<set<object>>, o: object) returns (i: nat)
    requires o in Union(owns)
    ensures i < |owns| && o in owns[i]
  {
    if o in owns[0] {
      i := 0;
    } else {
      var k := UnionFrom(owns[1..], o);
      i := k + 1;
    }
  }

  lemma {:induction false} UnionTail(owns: seq<set<object>>)
    requires owns != [] && PairwiseDisjoint(owns)
    ensures Union(owns[1..]) == Union(owns) - owns[0] && PairwiseDisjoint(owns[1..])
  {
    forall o | o in Union(owns[1..])
      ensures o !in owns[0]
    {
      var i := UnionFrom(owns[1..], o);
      assert owns[0] !! owns[i + 1];
    }
  }

  lemma {:induction false} UnionAppend(owns: seq<set<object>>, own: set<object>)
    ensures Union(owns + [own]) == Union(owns) + own
  {
    if owns != [] {
      UnionAppend(owns[1..], own);
      assert (owns + [own])[1..] == owns[1..] + [own];
    }
  }

  lemma {:induction false} UnionUpdate(owns: seq<set<object>>, i: nat, extra: set<object>)
    requires i < |owns|
    ensures Union(owns[i := owns[i] + extra]) == Union(owns) + extra
  {
    var updated := owns[i := owns[i] + extra];
    if i == 0 {
      assert updated[1..] == owns[1..];
    } else {
      UnionUpdate(owns[1..], i - 1, extra);
      assert updated[1..] == owns[1..][i - 1 := owns[1..][i - 1] + extra];
    }
  }

  /** Element `r` means `view` and owns exactly the malloc nodes `own`. */
  ghost predicate Holds(r: Route, view: RouteView, own: set<object>)
    reads r, r.nextHop
  {
    r.Valid() && r.View() == view && own == {r} + r.HopNodes() && r.nextHop.Zeroed()
  }

  /** The node objects, their meanings and their malloc nodes, side by side; no two
      elements share a struct or a malloc node. */
  ghost predicate Linked(elems: seq<Route>, view: seq<RouteView>, owns: seq<set<object>>)
    reads elems, set r | r in elems :: r.nextHop
  {
    && |elems| == |view| == |owns|
    && (forall i | 0 <= i < |elems| :: Holds(elems[i], view[i], owns[i]))
    && (forall i, j | 0 <= i < j < |elems| :: elems[i].nextHop != elems[j].nextHop)
    && PairwiseDisjoint(owns)
  }

  /** Every object whose fields the meaning of the list depends on. */
  ghost predicate Within(elems: seq<Route>, owns: seq<set<object>>, repr: set<object>) {
    && (forall r | r in elems :: r in repr && r.nextHop in repr)
    && Union(owns) <= repr
  }

  lemma LinkedPrepend(elems: seq<Route>, view: seq<RouteView>, owns: seq<set<object>>, repr: set<object>,
      element: Route, own: set<object>)
    requires Linked(elems, view, owns) && Within(elems, owns, repr)
    requires element.Valid() && Holds(element, element.View(), own)
    requires own !! repr && element.nextHop !in repr
    ensures Linked([element] + elems, [element.View()] + view, [own] + owns)
    ensures Within([element] + elems, [own] + owns, repr + own + {element.nextHop})
  {
    forall i | 0 <= i < |owns|
      ensures owns[i] !! own
    {
      UnionMember(owns, i);
    }
    assert ([own] + owns)[1..] == owns;
  }

  lemma LinkedTail(elems: seq<Route>, view: seq<RouteView>, owns: seq<set<object>>, repr: set<object>)
    requires Linked(elems, view, owns) && Within(elems, owns, repr) && elems != []
    ensures Linked(elems[1..], view[1..], owns[1..]) && Within(elems[1..], owns[1..], repr)
    ensures Union(owns[1..]) == Union(owns) - owns[0] && owns[0] <= Union(owns)
    ensures Union(owns[1..]) !! {elems[0]} && elems[0] !in elems[1..]
  {
    UnionTail(owns);
    assert Holds(elems[0], view[0], owns[0]);
    forall i | 1 <= i < |elems|
      ensures elems[i] != elems[0]
    {
      assert elems[0].nextHop != elems[i].nextHop;
    }
  }

  /** An unused next hop becomes a simple one without interface. */
  function WithGateway(hop: HopView, gateway: NlAddr): HopView
    requires hop.NoHop? || hop.SimpleView?
  {
    SimpleView((if hop.NoHop? then ZERO_SIMPLE else hop.simple).(addr := Some(gateway)))
  }

  /** Index of the first route with the least preference. */
  function Preferred(view: seq<RouteView>): (k: nat)
    requires view != []
    ensures k < |view|
    ensures forall i | 0 <= i < |view| :: view[k].preference <= view[i].preference
    ensures forall i | 0 <= i < k :: view[k].preference < view[i].preference
  {
    if |view| == 1 then 0
    else
      var k := Preferred(view[..|view| - 1]);
      if view[|view| - 1].preference < view[k].preference then |view| - 1 else k
  }

  /** One route list after the selection of its active route. */
  function MarkPreferred(view: seq<RouteView>): seq<RouteView> {
    if view == [] then [] else
      var k := Preferred(view);
      view[k := view[k].(active := true)]
  }

  class RouteList {
    var elems: seq<Route>

    ghost var Repr: set<object>
    ghost var View: seq<RouteView>
    ghost var Owns: seq<set<object>>  // the malloc nodes of each element

    ghost predicate Valid()
      reads this, Repr
      ensures Valid() ==> this in Repr
    {
      && this in Repr
      && Within(elems, Owns, Repr)
      && Linked(elems, View, Owns)
      && Owned() <= Repr && this !in Owned()
    }

    ghost function Owned(): set<object>
      reads this
    {
      Union(Owns)
    }

    lemma ElementAt(i: nat)
      requires Valid() && i < |elems|
      ensures |elems| == |View| == |Owns| && Holds(elems[i], View[i], Owns[i])
      ensures {elems[i], elems[i].nextHop} <= Repr
    {
    }

    lemma Lengths()
      requires Valid()
      ensures |elems| == |View| == |Owns|
    {
    }

    constructor ()
      ensures Valid() && fresh(Repr) && View == [] && Owned() == {}
    {
      elems := [];
      Repr, View, Owns := {this}, [], [];
    }

    /** LL_PREPEND of a node that is not in the list yet. */
    method Prepend(element: Route, ghost own: set<object>)
      requires Valid()
      requires element.Valid() && Holds(element, element.View(), own)
      requires own !! Repr && element.nextHop !in Repr
      modifies this
      ensures Valid() && Repr == old(Repr) + own + {element.nextHop}
      ensures elems == [element] + old(elems)
      ensures View == [element.View()] + old(View)
      ensures Owned() == own + old(Owned())
    {
      LinkedPrepend(elems, View, Owns, Repr, element, own);
      elems := [element] + elems;
      Repr := Repr + own + {element.nextHop};
      View := [element.View()] + View;
      Owns := [own] + Owns;
      assert Owns[1..] == old(Owns);
    }

    /** Prepends a deep copy: the head is always the newest route. */
    method Add(heap: NodeHeap, route: Route)
      requires Valid() && heap !in Repr
      requires route.Valid() && Clonable(route.View().hop)
      modifies this, heap
      ensures Valid() && fresh(Repr - old(Repr)) && old(Repr) <= Repr
      ensures View == [CloneRouteView(old(route.View()))] + old(View)
      ensures elems != [] && fresh(elems[0]) && elems[1..] == old(elems)
      ensures old(Owned()) <= Owned() && fresh(Owned() - old(Owned()))
      ensures heap.live == old(heap.live) + (Owned() - old(Owned()))
    {
      var element := route.Clone(heap);
      heap.Malloc(element);
      Prepend(element, {element} + element.HopNodes());
    }

    /** The inner selection loop of routing_collect_routes: a strictly smaller
        preference moves `pref`, then the chosen struct is marked through its pointer. */
    method SelectActive()
      requires Valid()
      modifies Repr
      ensures Valid() && Repr == old(Repr) && Owned() == old(Owned()) && elems == old(elems)
      ensures View == MarkPreferred(old(View))
    {
      if elems != [] {
        var k := 0;
        var pref := elems[0];
        for i := 0 to |elems|
          invariant 0 <= k < |elems| && pref == elems[k]
          invariant i > 0 ==> k == Preferred(View[..i])
          invariant i == 0 ==> k == 0
        {
          assert Holds(elems[i], View[i], Owns[i]) && Holds(pref, View[k], Owns[k]);
          assert i > 0 ==> View[..i + 1][..i] == View[..i];
          if elems[i].preference < pref.preference {
            k := i;
            pref := elems[i];
          }
        }
        assert View[..|elems|] == View;
        Activate(k);
      }
    }

    method Activate(k: nat)
      requires Valid() && k < |elems|
      modifies Repr
      ensures Valid() && Repr == old(Repr) && Owned() == old(Owned()) && elems == old(elems)
      ensures View == old(View)[k := old(View)[k].(active := true)]
    {
      assert Holds(elems[k], View[k], Owns[k]);
      elems[k].SetActive(true);
      View := View[k := View[k].(active := true)];
      assert forall i | 0 <= i < |elems| && i != k :: old(Holds(elems[i], View[i], Owns[i]));
    }

    /** `route_set_description(&(*routes_head)->route, ...)`. */
    method SetHeadDescription(text: string)
      requires Valid() && elems != []
      modifies Repr
      ensures Valid() && Repr == old(Repr) && Owned() == old(Owned()) && elems == old(elems)
      ensures View == old(View)[0 := old(View)[0].(description := Some(text))]
    {
      assert Holds(elems[0], View[0], Owns[0]);
      elems[0].SetDescription(Some(text));
      View := View[0 := View[0].(description := Some(text))];
      assert forall i | 1 <= i < |elems| :: old(Holds(elems[i], View[i], Owns[i]));
    }

    /** `route_next_hop_set_simple_gateway(&(*routes_head)->route.next_hop, ...)`. */
    method SetHeadGateway(gateway: NlAddr)
      requires Valid() && elems != [] && (View[0].hop.NoHop? || View[0].hop.SimpleView?)
      modifies Repr
      ensures Valid() && Repr == old(Repr) && Owned() == old(Owned()) && elems == old(elems)
      ensures View == old(View)[0 := old(View)[0].(hop := WithGateway(old(View)[0].hop, gateway))]
    {
      assert Holds(elems[0], View[0], Owns[0]);
      elems[0].nextHop.SetSimpleGateway(Some(gateway));
      View := View[0 := View[0].(hop := WithGateway(View[0].hop, gateway))];
      assert Holds(elems[0], View[0], Owns[0]);
      forall i | 1 <= i < |elems|
        ensures Holds(elems[i], View[i], Owns[i])
      {
        assert elems[0].nextHop != elems[i].nextHop;
        assert old(Holds(elems[i], View[i], Owns[i]));
      }
    }

    /** LL_DELETE of the head. */
    method Pop() returns (head: Route, ghost own: set<object>)
      requires Valid() && elems != []
      modifies this
      ensures Valid() && Repr == old(Repr)
      ensures head == old(elems)[0] && elems == old(elems)[1..] && head !in elems
      ensures head.Valid() && own == {head} + head.HopNodes() && head.nextHop in Repr && head in Repr
      ensures Owned() == old(Owned()) - own && own <= old(Owned())
    {
      LinkedTail(elems, View, Owns, Repr);
      head := elems[0];
      own := Owns[0];
      assert Holds(elems[0], View[0], Owns[0]);
      elems, View, Owns := elems[1..], View[1..], Owns[1..];
    }

    method Free(heap: NodeHeap)
      requires Valid() && heap !in Repr && Owned() <= heap.live
      modifies Repr, heap
      ensures Valid() && elems == [] && Repr == old(Repr) && Owned() == {}
      ensures heap.live == old(heap.live) - old(Owned())
    {
      while elems != []
        invariant Valid() && Repr == old(Repr) && Owned() <= heap.live
        invariant Owned() <= old(Owned())
        invariant heap.live == old(heap.live) - (old(Owned()) - Owned())
        decreases |elems|
      {
        var iter, own := Pop();
        FreeElement(heap, iter, own);
      }
    }

    method FreeElement(heap: NodeHeap, iter: Route, ghost own: set<object>)
      requires Valid() && heap !in Repr && {iter, iter.nextHop} <= Repr
      requires iter.Valid() && own == {iter} + iter.HopNodes() && own <= heap.live
      requires iter !in elems && (forall r | r in elems :: r.nextHop != iter.nextHop)
      modifies iter, iter.nextHop, heap
      ensures Valid() && heap.live == old(heap.live) - own
    {
      iter.Free(heap);
      heap.Free(iter);
    }
  }
}
