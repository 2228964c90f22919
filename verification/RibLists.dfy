/** src/routing/rib.c and src/routing/rib/list.c: the list of routing tables, keyed by
    name and address family. */
module RibLists {
  import opened NodeHeaps
  import opened NextHops
  import opened Routes
  import opened RouteLists
  import opened RouteListHashes

  datatype RibView = RibView(name: string, family: int, isDefault: bool, groups: seq<Group>)

  /** Index of the first RIB with this name and family, or the length if there is none. */
  function FindRib(ribs: seq<RibView>, name: string, family: int): (k: nat)
    ensures k <= |ribs|
    ensures k < |ribs| ==> ribs[k].name == name && ribs[k].family == family
    ensures forall i | 0 <= i < k :: !(ribs[i].name == name && ribs[i].family == family)
  {
    if ribs == [] || (ribs[0].name == name && ribs[0].family == family) then 0
    else 1 + FindRib(ribs[1..], name, family)
  }

  function AddRib(ribs: seq<RibView>, name: string, family: int): seq<RibView> {
    if FindRib(ribs, name, family) < |ribs| then ribs
    else ribs + [RibView(name, family, false, [])]
  }

  function SelectInRibs(ribs: seq<RibView>): (r: seq<RibView>)
    ensures |r| == |ribs|
    ensures forall i | 0 <= i < |ribs| :: r[i] == ribs[i].(groups := SelectInGroups(ribs[i].groups))
  {
    seq(|ribs|, i requires 0 <= i < |ribs| => ribs[i].(groups := SelectInGroups(ribs[i].groups)))
  }

  /** struct rib_list_element with its embedded struct rib; name and family are
      written once, right after malloc. */
  class RibElement {
    const name: string
    const family: int
    var isDefault: bool
    const routes: RouteListHash

    constructor (name: string, family: int, routes: RouteListHash)
      ensures this.name == name && this.family == family && !isDefault && this.routes == routes
    {
      this.name, this.family, this.routes := name, family, routes;
      isDefault := false;
    }
  }

  /** The objects that the meaning of one element depends on. */
  ghost function Footprint(e: RibElement): set<object>
    reads e.routes
  {
    {e} + e.routes.Repr
  }

  ghost predicate HoldsRib(e: RibElement, view: RibView, own: set<object>)
    reads e, e.routes, e.routes.Repr
  {
    && e.routes.Valid()
    && view == RibView(e.name, e.family, e.isDefault, e.routes.View)
    && own == {e} + e.routes.Owned()
    && e !in e.routes.Repr && e.routes.Owned() <= e.routes.Repr
  }

  ghost predicate LinkedRibs(elems: seq<RibElement>, view: seq<RibView>, owns: seq<set<object>>)
    reads elems, set e | e in elems :: e.routes, set e, o | e in elems && o in e.routes.Repr :: o
  {
    && |elems| == |view| == |owns|
    && (forall i | 0 <= i < |elems| :: HoldsRib(elems[i], view[i], owns[i]))
    && (forall i, j | 0 <= i < j < |elems| :: Footprint(elems[i]) !! Footprint(elems[j]))
    && PairwiseDisjoint(owns)
  }

  lemma LinkedRibsAppend(elems: seq<RibElement>, view: seq<RibView>, owns: seq<set<object>>, repr: set<object>,
      e: RibElement, rib: RibView, own: set<object>)
    requires LinkedRibs(elems, view, owns) && Union(owns) <= repr
    requires forall f | f in elems :: Footprint(f) <= repr
    requires HoldsRib(e, rib, own) && Footprint(e) !! repr
    ensures LinkedRibs(elems + [e], view + [rib], owns + [own])
    ensures Union(owns + [own]) == Union(owns) + own && own <= Footprint(e)
  {
    hide LinkedGroups, RouteListHash.Valid, Union;
    UnionAppend(owns, own);
    forall i | 0 <= i < |owns|
      ensures owns[i] !! own
    {
      UnionMember(owns, i);
    }
    assert forall i | 0 <= i < |elems| :: elems[i] in elems;
  }

  /** Element `k` has changed and grown by `extra`; the other elements are as before. */
  lemma LinkedRibsReplace(elems: seq<RibElement>, view: seq<RibView>, owns: seq<set<object>>, repr: set<object>, k: nat,
      rib: RibView, extra: set<object>, before: set<object>)
    requires |elems| == |view| == |owns| && k < |elems| && PairwiseDisjoint(owns) && Union(owns) <= repr
    requires forall i | 0 <= i < |elems| && i != k ::
               HoldsRib(elems[i], view[i], owns[i]) && Footprint(elems[i]) <= repr
    requires forall i, j | 0 <= i < j < |elems| && i != k && j != k :: Footprint(elems[i]) !! Footprint(elems[j])
    requires HoldsRib(elems[k], rib, owns[k] + extra)
    requires before <= repr && forall i | 0 <= i < |elems| && i != k :: Footprint(elems[i]) !! before
    requires (Footprint(elems[k]) - before) !! repr && extra !! repr
    ensures LinkedRibs(elems, view[k := rib], owns[k := owns[k] + extra])
    ensures Union(owns[k := owns[k] + extra]) == Union(owns) + extra
  {
    hide LinkedGroups, RouteListHash.Valid, Union;
    UnionUpdate(owns, k, extra);
    forall i | 0 <= i < |owns|
      ensures owns[i] !! extra
    {
      UnionMember(owns, i);
    }
  }

  lemma HoldsOwnRepr(e: RibElement, view: RibView, own: set<object>)
    requires HoldsRib(e, view, own)
    ensures e.routes in e.routes.Repr
  {
  }

  lemma LinkedRibsTail(elems: seq<RibElement>, view: seq<RibView>, owns: seq<set<object>>)
    requires LinkedRibs(elems, view, owns) && elems != []
    ensures LinkedRibs(elems[1..], view[1..], owns[1..])
    ensures Union(owns[1..]) == Union(owns) - owns[0] && owns[0] <= Union(owns)
  {
    UnionTail(owns);
  }

  /** The head pointer cell of the list. */
  class RibList {
    var elems: seq<RibElement>

    ghost var Repr: set<object>
    ghost var View: seq<RibView>
    ghost var Owns: seq<set<object>>

    ghost predicate Valid()
      reads this, Repr
      ensures Valid() ==> this in Repr
    {
      && this in Repr
      && (forall e | e in elems :: e in Repr && e.routes in Repr && e.routes.Repr <= Repr && this !in e.routes.Repr)
      && Union(Owns) <= Repr
      && |elems| == |View| == |Owns|
      && LinkedRibs(elems, View, Owns)
      && this !in Owned()
    }

    ghost function Owned(): set<object>
      reads this
    {
      Union(Owns)
    }

    lemma ElementAt(i: nat)
      requires Valid() && i < |elems|
      ensures |elems| == |View| == |Owns| && HoldsRib(elems[i], View[i], Owns[i])
    {
    }

    constructor ()
      ensures Valid() && fresh(Repr) && View == [] && Owned() == {}
    {
      elems := [];
      Repr, View, Owns := {this}, [], [];
    }

    /** LL_SEARCH with rib_list_element_cmp. */
    method Get(name: string, family: int) returns (found: RibElement?, ghost k: nat)
      requires Valid()
      ensures k == FindRib(View, name, family)
      ensures FindRib(View, name, family) < |elems| ==> found == elems[FindRib(View, name, family)]
      ensures FindRib(View, name, family) >= |elems| ==> found == null
    {
      found, k := null, 0;
      for i := 0 to |elems|
        invariant FindRib(View, name, family) == i + FindRib(View[i..], name, family)
      {
        assert HoldsRib(elems[i], View[i], Owns[i]);
        assert View[i..][1..] == View[i + 1..];
        if elems[i].name == name && elems[i].family == family {
          found := elems[i];
          k := i;
          return;
        }
      }
      k := |elems|;
    }

    method Add(heap: NodeHeap, name: string, family: int)
      requires Valid() && heap !in Repr
      modifies this, heap
      ensures Valid() && fresh(Repr - old(Repr)) && old(Repr) <= Repr
      ensures View == AddRib(old(View), name, family)
      ensures old(Owned()) <= Owned() && fresh(Owned() - old(Owned()))
      ensures heap.live == old(heap.live) + (Owned() - old(Owned()))
    {
      hide LinkedRibs, Union, RouteListHash.Valid;
      var found, k := Get(name, family);
      if found == null {
        var routes := new RouteListHash();
        var element := new RibElement(name, family, routes);
        heap.Malloc(element);
        assert {element} + {} == {element};
        assert HoldsRib(element, RibView(name, family, false, []), {element});
        Append(element, RibView(name, family, false, []), {element});
      }
    }

    /** LL_APPEND of an element that is not in the list yet. */
    method Append(element: RibElement, ghost rib: RibView, ghost own: set<object>)
      requires Valid() && HoldsRib(element, rib, own) && Footprint(element) !! Repr
      modifies this
      ensures Valid() && Repr == old(Repr) + Footprint(element)
      ensures View == old(View) + [rib] && Owned() == old(Owned()) + own
    {
      hide LinkedRibs, HoldsRib, Union, RouteListHash.Valid;
      LinkedRibsAppend(elems, View, Owns, Repr, element, rib, own);
      assert element.routes in element.routes.Repr by { HoldsOwnRepr(element, rib, own); }
      elems := elems + [element];
      Repr := Repr + Footprint(element);
      View := View + [rib];
      Owns := Owns + [own];
    }

    /** All elements but `k` are sound, and apart from the objects `before`. */
    ghost predicate Apart(k: nat, before: set<object>)
      reads this, elems, set e | e in elems :: e.routes, set e, o | e in elems && o in e.routes.Repr :: o
    {
      && k < |elems| == |View| == |Owns|
      && this in Repr && before <= Repr && this !in before && elems[k] in before && elems[k].routes in before
      && (forall i | 0 <= i < |elems| && i != k ::
            HoldsRib(elems[i], View[i], Owns[i]) && Footprint(elems[i]) <= Repr && elems[i].routes in Repr)
      && (forall i | 0 <= i < |elems| && i != k :: Footprint(elems[i]) !! before && this !in elems[i].routes.Repr)
      && (forall i, j | 0 <= i < j < |elems| && i != k && j != k :: Footprint(elems[i]) !! Footprint(elems[j]))
      && PairwiseDisjoint(Owns) && Owned() <= Repr && this !in Owned()
    }

    /** Brings the ghost state up to date after element `k` has changed. */
    ghost method Refresh(k: nat, before: set<object>, rib: RibView, extra: set<object>)
      requires Apart(k, before)
      requires HoldsRib(elems[k], rib, Owns[k] + extra)
      requires extra <= Footprint(elems[k]) && extra !! Repr && (Footprint(elems[k]) - before) !! Repr
      modifies `Repr, `View, `Owns
      ensures Valid() && Repr == old(Repr) + Footprint(elems[k])
      ensures View == old(View)[k := rib]
      ensures Owned() == old(Owned()) + extra
    {
      hide LinkedRibs, HoldsRib, Union, RouteListHash.Valid;
      LinkedRibsReplace(elems, View, Owns, Repr, k, rib, extra, before);
      HoldsOwnRepr(elems[k], rib, Owns[k] + extra);
      Repr := Repr + Footprint(elems[k]);
      View := View[k := rib];
      Owns := Owns[k := Owns[k] + extra];
    }

    /** Returns 0, or -1 when there is no such RIB. */
    method SetDefault(name: string, family: int, isDefault: bool) returns (error: int)
      requires Valid()
      modifies Repr
      ensures Valid() && Repr == old(Repr) && Owned() == old(Owned()) && elems == old(elems)
      ensures var k := FindRib(old(View), name, family);
              if k < |old(View)| then
                error == 0 && View == old(View)[k := old(View)[k].(isDefault := isDefault)]
              else
                error == -1 && View == old(View)
    {
      hide Union, LinkedRibs;
      var found, k := Get(name, family);
      if found == null {
        error := -1;
      } else {
        WriteDefault(found, k, isDefault);
        error := 0;
      }
    }

    method WriteDefault(rib: RibElement, ghost k: nat, isDefault: bool)
      requires Valid() && k < |elems| && elems[k] == rib
      modifies Repr
      ensures Valid() && Repr == old(Repr) && Owned() == old(Owned()) && elems == old(elems)
      ensures View == old(View)[k := old(View)[k].(isDefault := isDefault)]
    {
      hide Union, LinkedGroups, RouteListHash.Owned;
      ghost var before := Footprint(rib);
      assert HoldsRib(elems[k], View[k], Owns[k]);
      assert Apart(k, before);
      rib.isDefault := isDefault;
      assert Apart(k, before) by {
        forall i | 0 <= i < |elems| && i != k
          ensures HoldsRib(elems[i], View[i], Owns[i])
        {
          assert old(HoldsRib(elems[i], View[i], Owns[i])) && elems[i] in elems;
        }
      }
      assert Owns[k] + {} == Owns[k];
      Refresh(k, before, View[k].(isDefault := isDefault), {});
    }

    /** route_list_hash_add on the list head inside the RIB that Get returned. */
    method AddRoute(heap: NodeHeap, rib: RibElement, ghost k: nat, addr: NlAddr, route: Route)
      requires Valid() && heap !in Repr && k < |elems| && elems[k] == rib
      requires route.Valid() && Clonable(route.View().hop)
      requires route !in Repr && route.nextHop !in Repr
      modifies Repr, heap
      ensures Valid() && fresh(Repr - old(Repr)) && old(Repr) <= Repr
      ensures View == old(View)[k := old(View)[k].(groups :=
                AddToGroups(old(View)[k].groups, addr, CloneRouteView(old(route.View()))))]
      ensures old(Owned()) <= Owned() && fresh(Owned() - old(Owned()))
      ensures heap.live == old(heap.live) + (Owned() - old(Owned()))
    {
      hide Union, LinkedGroups, AddToGroups, CloneRouteView, Clonable;
      ghost var before := Footprint(rib);
      ghost var owned := rib.routes.Owned();
      assert HoldsRib(elems[k], View[k], Owns[k]);
      assert Apart(k, before);
      rib.routes.Add(heap, addr, route);
      assert Apart(k, before) by {
        forall i | 0 <= i < |elems| && i != k
          ensures HoldsRib(elems[i], View[i], Owns[i])
        {
          assert old(HoldsRib(elems[i], View[i], Owns[i])) && elems[i] in elems;
        }
      }
      Refresh(k, before, View[k].(groups := rib.routes.View), rib.routes.Owned() - owned);
    }

    /** The outer selection loop of routing_collect_routes. */
    method SelectActive()
      requires Valid()
      modifies Repr
      ensures Valid() && Repr == old(Repr) && Owned() == old(Owned()) && elems == old(elems)
      ensures View == SelectInRibs(old(View))
    {
      hide LinkedRibs, Union, SelectInGroups;
      for i := 0 to |elems|
        invariant Valid() && Repr == old(Repr) && Owned() == old(Owned()) && elems == old(elems)
        invariant |View| == |old(View)|
        invariant forall j | 0 <= j < i :: View[j] == old(View)[j].(groups := SelectInGroups(old(View)[j].groups))
        invariant forall j | i <= j < |View| :: View[j] == old(View)[j]
      {
        SelectInElement(i);
      }
    }

    method SelectInElement(k: nat)
      requires Valid() && k < |elems|
      modifies Repr
      ensures Valid() && Repr == old(Repr) && Owned() == old(Owned()) && elems == old(elems)
      ensures View == old(View)[k := old(View)[k].(groups := SelectInGroups(old(View)[k].groups))]
    {
      hide LinkedGroups, Union, RouteListHash.Owned, SelectInGroups;
      ghost var before := Footprint(elems[k]);
      assert HoldsRib(elems[k], View[k], Owns[k]);
      assert Apart(k, before);
      elems[k].routes.SelectActive();
      assert Apart(k, before) by {
        forall i | 0 <= i < |elems| && i != k
          ensures HoldsRib(elems[i], View[i], Owns[i])
        {
          assert old(HoldsRib(elems[i], View[i], Owns[i])) && elems[i] in elems;
        }
      }
      assert Owns[k] + {} == Owns[k];
      Refresh(k, before, View[k].(groups := elems[k].routes.View), {});
    }

    /** LL_DELETE of the head. */
    method Pop() returns (head: RibElement, ghost own: set<object>)
      requires Valid() && elems != []
      modifies this
      ensures Valid() && Repr == old(Repr) && elems == old(elems)[1..]
      ensures head.routes.Valid() && own == {head} + head.routes.Owned() && head !in head.routes.Owned()
      ensures head.routes.Repr <= Repr && this !in head.routes.Repr
      ensures forall e | e in elems :: Footprint(e) !! head.routes.Repr
      ensures Owned() == old(Owned()) - own && own <= old(Owned())
    {
      hide LinkedGroups, Union, RouteListHash.Valid;
      LinkedRibsTail(elems, View, Owns);
      head := elems[0];
      own := Owns[0];
      assert HoldsRib(elems[0], View[0], Owns[0]);
      elems, View, Owns := elems[1..], View[1..], Owns[1..];
    }

    /** Releases every RIB, prefix, route and next-hop node; the head becomes NULL. */
    method Free(heap: NodeHeap)
      requires Valid() && heap !in Repr && Owned() <= heap.live
      modifies Repr, heap
      ensures Valid() && elems == [] && Repr == old(Repr) && Owned() == {}
      ensures heap.live == old(heap.live) - old(Owned())
    {
      hide Union, LinkedRibs;
      while elems != []
        invariant Valid() && Repr == old(Repr) && Owned() <= heap.live
        invariant Owned() <= old(Owned())
        invariant heap.live == old(heap.live) - (old(Owned()) - Owned())
        decreases |elems|
      {
        var iter, own := Pop();
        FreeElement(heap, iter, own);
      }
      assert Owned() == {} by { OwnedEmpty(); }
    }

    lemma OwnedEmpty()
      requires Valid() && elems == []
      ensures Owned() == {}
    {
    }

    method FreeElement(heap: NodeHeap, iter: RibElement, ghost own: set<object>)
      requires Valid() && heap !in Repr && iter.routes.Repr <= Repr && this !in iter.routes.Repr
      requires iter.routes.Valid() && own == {iter} + iter.routes.Owned() && own <= heap.live
      requires iter !in iter.routes.Owned()
      requires forall e | e in elems :: Footprint(e) !! iter.routes.Repr
      modifies iter.routes.Repr, heap
      ensures Valid() && heap.live == old(heap.live) - own
    {
      hide Union, LinkedGroups, RouteListHash.Valid;
      iter.routes.Free(heap);
      heap.Free(iter);
      forall i | 0 <= i < |elems|
        ensures HoldsRib(elems[i], View[i], Owns[i])
      {
        assert old(HoldsRib(elems[i], View[i], Owns[i])) && elems[i] in elems;
      }
    }
  }
}
