/** src/routing/route.c: struct route with its setters, deep copy and release. */
module Routes {
  import opened Wrappers
  import opened NodeHeaps
  import opened NextHops

  /** What a route means, with the next-hop list replaced by its contents. */
  datatype RouteView = RouteView(
    preference: nat,
    active: bool,
    sourceProtocol: Option<string>,
    lastUpdated: Option<string>,
    description: Option<string>,
    hop: HopView)

  /** The view of a zeroed struct, which is also what route_init leaves. */
  const EMPTY_ROUTE := RouteView(0, false, None, None, None, NoHop)

  /** The view of the deep copy: the source setter for `last_updated` writes
      `source_protocol`, and an empty next-hop list is copied to no next hop. */
  function CloneRouteView(r: RouteView): RouteView {
    RouteView(
      r.preference,
      r.active,
      if r.lastUpdated.Some? then r.lastUpdated else r.sourceProtocol,
      None,
      r.description,
      CloneView(r.hop))
  }

  /** xstrdup has no answer for a NULL interface name. */
  ghost predicate Clonable(hop: HopView) {
    match hop
    case NoHop => true
    case SimpleView(simple) => simple.ifName.Some?
    case SpecialView(text) => true
    case ListView(hops) => forall i | 0 <= i < |hops| :: hops[i].ifName.Some?
  }

  /** The copy equals the original exactly when `last_updated` is unset and the next
      hop is not an empty list; both are visible in the struct before the call. Otherwise it
      has lost `last_updated`, which stands in place of the source protocol, or the empty
      list, and nothing else. */
  lemma CloneIsFaithful(r: RouteView)
    ensures CloneRouteView(r) == r <==> r.lastUpdated.None? && r.hop != ListView([])
    ensures var lost := if r.lastUpdated.None? then r else r.(lastUpdated := None, sourceProtocol := r.lastUpdated);
            CloneRouteView(r) == if r.hop == ListView([]) then lost.(hop := NoHop) else lost
  {
  }

  class Route {
    var preference: nat
    var active: bool
    var sourceProtocol: Option<string>
    var lastUpdated: Option<string>
    var description: Option<string>
    const nextHop: NextHop

    ghost predicate Valid()
      reads this, nextHop
    {
      nextHop.Valid()
    }

    function View(): RouteView
      requires Valid()
      reads this, nextHop
    {
      RouteView(preference, active, sourceProtocol, lastUpdated, description, nextHop.View())
    }

    /** The malloc nodes reachable from this struct. */
    ghost function HopNodes(): set<HopElement>
      requires Valid()
      reads this, nextHop
    {
      nextHop.Nodes()
    }

    /** A zeroed struct around the given embedded next hop. */
    constructor (nextHop: NextHop)
      requires nextHop.Valid()
      ensures this.nextHop == nextHop && Valid()
      ensures View() == EMPTY_ROUTE.(hop := nextHop.View())
    {
      this.nextHop := nextHop;
      preference, active := 0, false;
      sourceProtocol, lastUpdated, description := None, None, None;
    }

    method Init()
      modifies this, nextHop
      ensures Valid() && View() == EMPTY_ROUTE
      ensures nextHop.kind == KindNone && nextHop.value == old(nextHop.value)
    {
      preference, active := 0, false;
      sourceProtocol, lastUpdated, description := None, None, None;
      nextHop.Init();
    }

    method SetPreference(preference: nat)
      requires Valid()
      modifies this
      ensures Valid() && View() == old(View()).(preference := preference)
    {
      this.preference := preference;
    }

    method SetActive(active: bool)
      requires Valid()
      modifies this
      ensures Valid() && View() == old(View()).(active := active)
    {
      this.active := active;
    }

    method SetSourceProtocol(protocol: Option<string>)
      requires Valid()
      modifies this
      ensures Valid()
      ensures View() == if protocol.Some? then old(View()).(sourceProtocol := protocol) else old(View())
    {
      if protocol.Some? {
        sourceProtocol := protocol;
      }
    }

    /** As in the source, the argument lands in `source_protocol`. */
    method SetLastUpdated(lastUp: Option<string>)
      requires Valid()
      modifies this
      ensures Valid()
      ensures View() == if lastUp.Some? then old(View()).(sourceProtocol := lastUp) else old(View())
    {
      if lastUp.Some? {
        sourceProtocol := lastUp;
      }
    }

    method SetDescription(text: Option<string>)
      requires Valid()
      modifies this
      ensures Valid()
      ensures View() == if text.Some? then old(View()).(description := text) else old(View())
    {
      if text.Some? {
        description := text;
      }
    }

    /** Deep copy: nothing reachable from the result existed before the call, and the
        source struct, being outside `modifies`, is untouched. */
    method Clone(heap: NodeHeap) returns (out: Route)
      requires Valid() && Clonable(View().hop)
      modifies heap
      ensures fresh(out) && fresh(out.nextHop) && out.Valid() && fresh(out.HopNodes())
      ensures out.nextHop.Zeroed()
      ensures out.View() == CloneRouteView(View())
      ensures heap.live == old(heap.live) + out.HopNodes()
    {
      var hop := nextHop.Clone(heap);
      out := new Route(hop);
      out.SetPreference(preference);
      out.SetActive(active);
      out.SetSourceProtocol(sourceProtocol);
      out.SetLastUpdated(lastUpdated);
      out.SetDescription(description);
    }

    method Free(heap: NodeHeap)
      requires Valid() && HopNodes() <= heap.live
      modifies this, nextHop, heap
      ensures Valid() && View() == EMPTY_ROUTE && HopNodes() == {}
      ensures heap.live == old(heap.live) - old(HopNodes())
    {
      nextHop.Free(heap);
      Init();
    }
  }
}
