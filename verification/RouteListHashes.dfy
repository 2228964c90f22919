/** src/routing/route/list_hash.c: the prefix-keyed list of route lists. */
module RouteListHashes {
  import opened NodeHeaps
  import opened NextHops
  import opened Routes
  import opened RouteLists

  /** One destination prefix with its routes, newest first. */
  datatype Group = Group(prefix: NlAddr, routes: seq<RouteView>)

  /** Index of the first group for the prefix, or the length if there is none. */
  function Find(groups: seq<Group>, prefix: NlAddr): (k: nat)
    ensures k <= |groups|
    ensures k < |groups| ==> groups[k].prefix == prefix
    ensures forall i | 0 <= i < k :: groups[i].prefix != prefix
  {
    if groups == [] || groups[0].prefix == prefix then 0 else 1 + Find(groups[1..], prefix)
  }

  /** What route_list_hash_add does to the groups: newest route first within a known
      prefix, an unknown prefix at the end. */
  function AddToGroups(groups: seq<Group>, prefix: NlAddr, route: RouteView): seq<Group> {
    var k := Find(groups, prefix);
    if k < |groups| then
      groups[k := Group(prefix, [route] + groups[k].routes)]
    else
      groups + [Group(prefix, [route])]
  }

  function SelectInGroups(groups: seq<Group>): (r: seq<Group>)
    ensures |r| == |groups|
    ensures forall i | 0 <= i < |groups| :: r[i] == Group(groups[i].prefix, MarkPreferred(groups[i].routes))
  {
    seq(|groups|, i requires 0 <= i < |groups| => Group(groups[i].prefix, MarkPreferred(groups[i].routes)))
  }

  /** struct route_list_hash_element; `routes` is its embedded list head. */
  class HashElement {
    const prefix: NlAddr
    const routes: RouteList

    constructor (prefix: NlAddr, routes: RouteList)
      ensures this.prefix == prefix && this.routes == routes
    {
      this.prefix := prefix;
      this.routes := routes;
    }
  }

  ghost predicate HoldsGroup(e: HashElement, group: Group, own: set<object>)
    reads e.routes, e.routes.Repr
  {
    && e.routes.Valid()
    && group == Group(e.prefix, e.routes.View)
    && own == {e} + e.routes.Owned()
    && e !in e.routes.Owned()
  }

  ghost predicate LinkedGroups(elems: seq<HashElement>, view: seq<Group>, owns: seq<set<object>>)
    reads set e | e in elems :: e.routes, set e, o | e in elems && o in e.routes.Repr :: o
  {
    && |elems| == |view| == |owns|
    && (forall i | 0 <= i < |elems| :: HoldsGroup(elems[i], view[i], owns[i]))
    && (forall i, j | 0 <= i < j < |elems| :: elems[i].routes.Repr !! elems[j].routes.Repr)
    && PairwiseDisjoint(owns)
  }

  ghost predicate WithinGroups(elems: seq<HashElement>, owns: seq<set<object>>, repr: set<object>)
    reads set e | e in elems :: e.routes
  {
    && (forall e | e in elems :: e.routes in repr && e.routes.Repr <= repr)
    && Union(owns) <= repr
  }

  ghost predicate Placed(elems: seq<HashElement>, repr: set<object>, owner: object)
    reads set e | e in elems :: e.routes
  {
    forall e | e in elems :: e.routes.Repr <= repr && owner !in e.routes.Repr
  }

  /** LL_APPEND of a group whose objects are all new to the list. */
  lemma LinkedAppend(elems: seq<HashElement>, view: seq<Group>, owns: seq<set<object>>, repr: set<object>,
      e: HashElement, group: Group, own: set<object>)
    requires LinkedGroups(elems, view, owns) && WithinGroups(elems, owns, repr)
    requires HoldsGroup(e, group, own) && own !! repr && e.routes.Repr !! repr
    ensures LinkedGroups(elems + [e], view + [group], owns + [own])
    ensures WithinGroups(elems + [e], owns + [own], repr + own + e.routes.Repr)
    ensures Union(owns + [own]) == Union(owns) + own
  {
    hide Linked, Within, RouteList.Valid;
    UnionAppend(owns, own);
    forall i | 0 <= i < |owns|
      ensures owns[i] !! own
    {
      UnionMember(owns, i);
    }
    forall i | 0 <= i < |elems|
      ensures elems[i].routes.Repr !! e.routes.Repr
    {
      assert elems[i] in elems;
    }
  }

  /** Element `k` has grown by `extra`; the other elements are as before. */
  lemma LinkedReplace(elems: seq<HashElement>, view: seq<Group>, owns: seq<set<object>>, repr: set<object>, k: nat,
      group: Group, extra: set<object>, oldRepr: set<object>)
    requires |elems| == |view| == |owns| && k < |elems| && PairwiseDisjoint(owns) && Union(owns) <= repr
    requires forall i | 0 <= i < |elems| && i != k ::
               HoldsGroup(elems[i], view[i], owns[i]) && elems[i].routes.Repr <= repr
    requires forall i, j | 0 <= i < j < |elems| && i != k && j != k :: elems[i].routes.Repr !! elems[j].routes.Repr
    requires HoldsGroup(elems[k], group, owns[k] + extra)
    requires oldRepr <= repr && forall i | 0 <= i < |elems| && i != k :: elems[i].routes.Repr !! oldRepr
    requires (elems[k].routes.Repr - oldRepr) !! repr && extra !! repr && extra <= elems[k].routes.Repr
    requires forall e | e in elems :: e.routes in repr
    ensures LinkedGroups(elems, view[k := group], owns[k := owns[k] + extra])
    ensures WithinGroups(elems, owns[k := owns[k] + extra], repr + elems[k].routes.Repr)
    ensures Union(owns[k := owns[k] + extra]) == Union(owns) + extra
  {
    hide Linked, Within, RouteList.Valid;
    UnionUpdate(owns, k, extra);
    forall i | 0 <= i < |owns|
      ensures owns[i] !! extra
    {
      UnionMember(owns, i);
    }
  }

  lemma LinkedGroupsTail(elems: seq<HashElement>, view: seq<Group>, owns: seq<set<object>>, repr: set<object>)
    requires LinkedGroups(elems, view, owns) && WithinGroups(elems, owns, repr) && elems != []
    ensures LinkedGroups(elems[1..], view[1..], owns[1..]) && WithinGroups(elems[1..], owns[1..], repr)
    ensures Union(owns[1..]) == Union(owns) - owns[0] && owns[0] <= Union(owns)
  {
    UnionTail(owns);
  }

  /** The head pointer cell of the list. */
  class RouteListHash {
    var elems: seq<HashElement>

    ghost var Repr: set<object>
    ghost var View: seq<Group>
    ghost var Owns: seq<set<object>>

    ghost predicate Valid()
      reads this, Repr
      ensures Valid() ==> this in Repr
    {
      && this in Repr
      && (forall e | e in elems :: e.routes in Repr)
      && Placed(elems, Repr, this)
      && Union(Owns) <= Repr
      && |elems| == |View| == |Owns|
      && LinkedGroups(elems, View, Owns)
      && this !in Owned()
    }

    ghost function Owned(): set<object>
      reads this
    {
      Union(Owns)
    }

    lemma ElementAt(i: nat)
      requires Valid() && i < |elems|
      ensures |elems| == |View| == |Owns| && HoldsGroup(elems[i], View[i], Owns[i])
      ensures elems[i].routes in Repr && elems[i].routes.Repr <= Repr
    {
    }

    constructor ()
      ensures Valid() && fresh(Repr) && View == [] && Owned() == {}
    {
      elems := [];
      Repr, View, Owns := {this}, [], [];
    }

    /** LL_SEARCH: an interior pointer to the list head of the first matching element. */
    method Get(addr: NlAddr) returns (found: RouteList?, ghost k: nat)
      requires Valid()
      ensures k == Find(View, addr)
      ensures Find(View, addr) < |elems| ==> found == elems[Find(View, addr)].routes
      ensures Find(View, addr) >= |elems| ==> found == null
    {
      found, k := null, 0;
      for i := 0 to |elems|
        invariant Find(View, addr) == i + Find(View[i..], addr)
      {
        assert HoldsGroup(elems[i], View[i], Owns[i]);
        assert View[i..][1..] == View[i + 1..];
        if elems[i].prefix == addr {
          found := elems[i].routes;
          k := i;
          return;
        }
      }
      k := |elems|;
    }

    method Add(heap: NodeHeap, addr: NlAddr, route: Route)
      requires Valid() && heap !in Repr
      requires route.Valid() && Clonable(route.View().hop)
      modifies Repr, heap
      ensures Valid() && fresh(Repr - old(Repr)) && old(Repr) <= Repr
      ensures old(elems) <= elems
      ensures View == AddToGroups(old(View), addr, CloneRouteView(old(route.View())))
      ensures old(Owned()) <= Owned() && fresh(Owned() - old(Owned()))
      ensures heap.live == old(heap.live) + (Owned() - old(Owned()))
    {
      hide LinkedGroups, Find, CloneRouteView, Clonable;
      var found, k := Get(addr);
      if found != null {
        AddToElement(heap, found, k, route);
      } else {
        AddElement(heap, addr, route);
      }
    }

    method AddToElement(heap: NodeHeap, found: RouteList, ghost k: nat, route: Route)
      requires Valid() && heap !in Repr && k < |elems| && elems[k].routes == found
      requires route.Valid() && Clonable(route.View().hop)
      modifies this, found, heap
      ensures Valid() && fresh(Repr - old(Repr)) && old(Repr) <= Repr && elems == old(elems)
      ensures View == old(View)[k := Group(old(View)[k].prefix,
                                           [CloneRouteView(old(route.View()))] + old(View)[k].routes)]
      ensures old(Owned()) <= Owned() && fresh(Owned() - old(Owned()))
      ensures heap.live == old(heap.live) + (Owned() - old(Owned()))
    {
      hide Linked, Within, Clonable, CloneRouteView, Union, RouteList.Owned;
      ghost var before := found.Repr;
      ghost var owned := found.Owned();
      assert HoldsGroup(elems[k], View[k], Owns[k]);
      assert Apart(k, before);
      found.Add(heap, route);
      assert Apart(k, before) by {
        forall i | 0 <= i < |elems| && i != k
          ensures HoldsGroup(elems[i], View[i], Owns[i])
        {
          assert old(HoldsGroup(elems[i], View[i], Owns[i])) && elems[i] in elems;
        }
      }
      Refresh(k, before, found.Owned() - owned);
    }

    /** All elements but `k` are sound, and apart from the objects `before`. */
    ghost predicate Apart(k: nat, before: set<object>)
      reads this, set e | e in elems :: e.routes, set e, o | e in elems && o in e.routes.Repr :: o
    {
      && k < |elems| == |View| == |Owns|
      && this in Repr && before <= Repr && this !in before
      && (forall e | e in elems :: e.routes in Repr)
      && (forall i | 0 <= i < |elems| && i != k ::
        HoldsGroup(elems[i], View[i], Owns[i]) && elems[i].routes.Repr <= Repr)
      && (forall i | 0 <= i < |elems| && i != k :: elems[i].routes.Repr !! before && this !in elems[i].routes.Repr)
      && (forall i, j | 0 <= i < j < |elems| && i != k && j != k :: elems[i].routes.Repr !! elems[j].routes.Repr)
      && PairwiseDisjoint(Owns) && Owned() <= Repr && this !in Owned()
    }

    /** Brings the ghost state up to date after element `k` has grown by `extra`. */
    ghost method Refresh(k: nat, before: set<object>, extra: set<object>)
      requires Apart(k, before)
      requires HoldsGroup(elems[k], Group(elems[k].prefix, elems[k].routes.View), Owns[k] + extra)
      requires extra <= elems[k].routes.Repr && extra !! Repr && (elems[k].routes.Repr - before) !! Repr
      modifies `Repr, `View, `Owns
      ensures elems == old(elems)
      ensures Valid() && Repr == old(Repr) + elems[k].routes.Repr
      ensures View == old(View)[k := Group(elems[k].prefix, elems[k].routes.View)]
      ensures Owned() == old(Owned()) + extra
    {
      hide LinkedGroups, HoldsGroup, Union, RouteList.Valid;
      ghost var group := Group(elems[k].prefix, elems[k].routes.View);
      LinkedReplace(elems, View, Owns, Repr, k, group, extra, before);
      Repr, View, Owns := Repr + elems[k].routes.Repr, View[k := group], Owns[k := Owns[k] + extra];
    }

    method AddElement(heap: NodeHeap, addr: NlAddr, route: Route)
      requires Valid() && heap !in Repr
      requires route.Valid() && Clonable(route.View().hop)
      modifies this, heap
      ensures Valid() && fresh(Repr - old(Repr)) && old(Repr) <= Repr
      ensures old(elems) <= elems
      ensures View == old(View) + [Group(addr, [CloneRouteView(old(route.View()))])]
      ensures old(Owned()) <= Owned() && fresh(Owned() - old(Owned()))
      ensures heap.live == old(heap.live) + (Owned() - old(Owned()))
    {
      hide LinkedGroups, Linked, Within, Clonable, CloneRouteView, Union, Placed;
      var routes := new RouteList();
      var element := new HashElement(addr, routes);
      heap.Malloc(element);
      assert route.View() == old(route.View());
      routes.Add(heap, route);
      assert routes.View == [CloneRouteView(old(route.View()))];
      Append(element, Group(addr, routes.View), {element} + routes.Owned());
    }

    /** LL_APPEND of an element that is not in the list yet. */
    method Append(element: HashElement, ghost group: Group, ghost own: set<object>)
      requires Valid() && HoldsGroup(element, group, own)
      requires own !! Repr && element.routes.Repr !! Repr
      modifies this
      ensures Valid() && Repr == old(Repr) + own + element.routes.Repr
      ensures elems == old(elems) + [element]
      ensures View == old(View) + [group] && Owned() == old(Owned()) + own
    {
      hide LinkedGroups, HoldsGroup, Union, RouteList.Valid;
      LinkedAppend(elems, View, Owns, Repr, element, group, own);
      elems := elems + [element];
      Repr := Repr + own + element.routes.Repr;
      View := View + [group];
      Owns := Owns + [own];
    }

    /** The middle selection loop of routing_collect_routes. */
    method SelectActive()
      requires Valid()
      modifies Repr
      ensures Valid() && Repr == old(Repr) && Owned() == old(Owned()) && elems == old(elems)
      ensures View == SelectInGroups(old(View))
    {
      hide LinkedGroups, Union, MarkPreferred;
      for i := 0 to |elems|
        invariant Valid() && Repr == old(Repr) && Owned() == old(Owned()) && elems == old(elems)
        invariant |View| == |old(View)|
        invariant forall j | 0 <= j < i :: View[j] == Group(old(View)[j].prefix, MarkPreferred(old(View)[j].routes))
        invariant forall j | i <= j < |View| :: View[j] == old(View)[j]
      {
        SelectInElement(i);
      }
    }

    method SelectInElement(k: nat)
      requires Valid() && k < |elems|
      modifies Repr
      ensures Valid() && Repr == old(Repr) && Owned() == old(Owned()) && elems == old(elems)
      ensures View == old(View)[k := Group(old(View)[k].prefix, MarkPreferred(old(View)[k].routes))]
    {
      hide Linked, Within, Union, RouteList.Owned, MarkPreferred;
      ghost var before := elems[k].routes.Repr;
      assert HoldsGroup(elems[k], View[k], Owns[k]);
      assert Apart(k, before);
      elems[k].routes.SelectActive();
      assert Apart(k, before) by {
        forall i | 0 <= i < |elems| && i != k
          ensures HoldsGroup(elems[i], View[i], Owns[i])
        {
          assert old(HoldsGroup(elems[i], View[i], Owns[i])) && elems[i] in elems;
        }
      }
      assert Owns[k] + {} == Owns[k];
      Refresh(k, before, {});
    }

    /** LL_DELETE of the head. */
    method Pop() returns (head: HashElement, ghost own: set<object>)
      requires Valid() && elems != []
      modifies this
      ensures Valid() && Repr == old(Repr) && elems == old(elems)[1..]
      ensures head.routes.Valid() && own == {head} + head.routes.Owned() && head !in head.routes.Owned()
      ensures head.routes.Repr <= Repr && this !in head.routes.Repr
      ensures forall e | e in elems :: e.routes.Repr !! head.routes.Repr
      ensures Owned() == old(Owned()) - own && own <= old(Owned())
    {
      hide Linked, Within, Union;
      LinkedGroupsTail(elems, View, Owns, Repr);
      head := elems[0];
      own := Owns[0];
      assert HoldsGroup(elems[0], View[0], Owns[0]);
      elems, View, Owns := elems[1..], View[1..], Owns[1..];
    }

    method Free(heap: NodeHeap)
      requires Valid() && heap !in Repr && Owned() <= heap.live
      modifies Repr, heap
      ensures Valid() && elems == [] && Repr == old(Repr) && Owned() == {}
      ensures heap.live == old(heap.live) - old(Owned())
    {
      hide Union, LinkedGroups;
      while elems != []
        invariant Valid() && Repr == old(Repr) && Owned() <= heap.live
        invariant Owned() <= old(Owned())
        invariant heap.live == old(heap.live) - (old(Owned()) - Owned())
        decreases |elems|
      {
        var iter, own := Pop();
        FreeElement(heap, iter, own);
      }
      assert Owned() == {} by { OwnedEmpty(); }
    }

    lemma OwnedEmpty()
      requires Valid() && elems == []
      ensures Owned() == {}
    {
    }

    method FreeElement(heap: NodeHeap, iter: HashElement, ghost own: set<object>)
      requires Valid() && heap !in Repr && iter.routes.Repr <= Repr && this !in iter.routes.Repr
      requires iter.routes.Valid() && own == {iter} + iter.routes.Owned() && own <= heap.live
      requires iter !in iter.routes.Owned()
      requires forall e | e in elems :: e.routes.Repr !! iter.routes.Repr
      modifies iter.routes.Repr, heap
      ensures Valid() && heap.live == old(heap.live) - own
    {
      hide Union, Linked, Within;
      iter.routes.Free(heap);
      heap.Free(iter);
    }
  }
}
