/** src/routing/route/next_hop.c: the tagged-union next hop of a route. */
module NextHops {
  import opened Wrappers
  import opened Sequences
  import opened NodeHeaps

  /** A libnl address. `text` is what nl_addr2str prints for it. Addresses are
      reference counted and never written after creation, hence a value. */
  datatype NlAddr = NlAddr(text: string, prefixLen: nat)

  datatype Kind = KindNone | KindSimple | KindSpecial | KindList

  datatype SimpleHop = SimpleHop(addr: Option<NlAddr>, ifindex: int, ifName: Option<string>)

  const ZERO_SIMPLE := SimpleHop(None, 0, None)

  /** struct route_next_hop_list_element: a node obtained from malloc. */
  class HopElement {
    const simple: SimpleHop

    constructor (simple: SimpleHop)
      ensures this.simple == simple
    {
      this.simple := simple;
    }
  }

  /** The C union: which member was written last, and what. */
  datatype HopValue =
    | Simple(simple: SimpleHop)
    | Special(text: Option<string>)
    | ListHead(elements: seq<HopElement>)

  /** The three members overlay their first pointer; this tells whether it is NULL. */
  predicate NullPointer(value: HopValue) {
    match value
    case Simple(simple) => simple.addr.None?
    case Special(text) => text.None?
    case ListHead(elements) => elements == []
  }

  /** What a next hop means, with the list nodes replaced by their contents. */
  datatype HopView =
    | NoHop
    | SimpleView(simple: SimpleHop)
    | SpecialView(text: Option<string>)
    | ListView(hops: seq<SimpleHop>)

  function Contents(elements: seq<HopElement>): (hops: seq<SimpleHop>)
    ensures |hops| == |elements|
    ensures forall i | 0 <= i < |elements| :: hops[i] == elements[i].simple
  {
    seq(|elements|, i requires 0 <= i < |elements| => elements[i].simple)
  }

  ghost function NodeSet(elements: seq<HopElement>): set<HopElement> {
    set e | e in elements
  }

  class NextHop {
    var kind: Kind
    var value: HopValue

    /** The tag agrees with the union member and the list owns each node once. */
    ghost predicate Valid()
      reads this
    {
      match kind
      case KindNone => true
      case KindSimple => value.Simple?
      case KindSpecial => value.Special?
      case KindList => value.ListHead? && Distinct(value.elements)
    }

    function View(): HopView
      requires Valid()
      reads this
    {
      match kind
      case KindNone => NoHop
      case KindSimple => SimpleView(value.simple)
      case KindSpecial => SpecialView(value.text)
      case KindList => ListView(Contents(value.elements))
    }

    /** An unused union still holds the zero bytes it was created with. */
    ghost predicate Zeroed()
      reads this
    {
      kind == KindNone ==> value == Simple(ZERO_SIMPLE)
    }

    /** The malloc nodes this next hop owns. */
    ghost function Nodes(): set<HopElement>
      requires Valid()
      reads this
    {
      if kind == KindList then NodeSet(value.elements) else {}
    }

    /** A zero-initialised struct. */
    constructor ()
      ensures kind == KindNone && value == Simple(ZERO_SIMPLE)
    {
      kind := KindNone;
      value := Simple(ZERO_SIMPLE);
    }

    /** Only the tag is reset; the union keeps its stale bytes. */
    method Init()
      modifies this
      ensures kind == KindNone && value == old(value)
    {
      kind := KindNone;
    }

    /** Writes value.simple.addr; the other members of `simple` survive only if
        `simple` was the member in use, otherwise their bytes are arbitrary. */
    method SetSimpleGateway(gw: Option<NlAddr>)
      modifies this
      ensures kind == KindSimple && value.Simple? && value.simple.addr == gw
      ensures old(value).Simple? ==> value.simple == old(value).simple.(addr := gw)
    {
      var current: SimpleHop := *;
      if value.Simple? {
        current := value.simple;
      }
      kind := KindSimple;
      value := Simple(current.(addr := gw));
    }

    /** Does not set the tag, exactly as the source. */
    method SetSimpleInterface(ifindex: int, ifName: string)
      modifies this
      ensures kind == old(kind) && value.Simple?
      ensures value.simple.ifindex == ifindex && value.simple.ifName == Some(ifName)
      ensures old(value).Simple? ==> value.simple.addr == old(value).simple.addr
    {
      var current: SimpleHop := *;
      if value.Simple? {
        current := value.simple;
      }
      value := Simple(current.(ifindex := ifindex, ifName := Some(ifName)));
    }

    method SetSimple(ifindex: int, ifName: string, gw: Option<NlAddr>)
      modifies this
      ensures Valid() && View() == SimpleView(SimpleHop(gw, ifindex, Some(ifName)))
      ensures Nodes() == {}
    {
      SetSimpleGateway(gw);
      SetSimpleInterface(ifindex, ifName);
    }

    method SetSpecial(text: Option<string>)
      modifies this
      ensures Valid() && kind == KindSpecial && Nodes() == {}
      ensures text.Some? ==> View() == SpecialView(text)
      ensures text.None? && old(value).Special? ==> value == old(value)
      ensures text.None? && NullPointer(old(value)) ==> value == Special(None)
    {
      kind := KindSpecial;
      if text.Some? {
        value := Special(text);
      } else if NullPointer(value) {
        value := Special(None);
      } else if !value.Special? {
        var stale: Option<string> := *;
        value := Special(stale);
      }
    }

    /** Appends one node; the first call on an empty next hop turns it into a list. */
    method AddList(heap: NodeHeap, ifindex: int, ifName: string, gw: Option<NlAddr>)
      requires Valid() && (kind == KindNone || kind == KindList)
      modifies this, heap
      ensures Valid()
      ensures View() == ListView((if old(View()).NoHop? then [] else old(View()).hops)
                                 + [SimpleHop(gw, ifindex, Some(ifName))])
      ensures old(Nodes()) <= Nodes() && fresh(Nodes() - old(Nodes()))
      ensures heap.live == old(heap.live) + (Nodes() - old(Nodes()))
    {
      if kind == KindNone {
        value := ListHead([]);
        kind := KindList;
      }
      var element := new HopElement(SimpleHop(gw, ifindex, Some(ifName)));
      heap.Malloc(element);
      ghost var before := value.elements;
      value := ListHead(value.elements + [element]);
      NodeSetAppend(before, element);
    }

    /** A deep copy. A list is copied by repeated AddList on a zeroed struct, so an
        empty list comes back as no next hop. xstrdup demands an interface name. */
    method Clone(heap: NodeHeap) returns (out: NextHop)
      requires Valid()
      requires kind == KindSimple ==> value.simple.ifName.Some?
      requires kind == KindList ==> forall e | e in value.elements :: e.simple.ifName.Some?
      modifies heap
      ensures fresh(out) && out.Valid() && out.Zeroed() && fresh(out.Nodes())
      ensures out.View() == CloneView(View())
      ensures heap.live == old(heap.live) + out.Nodes()
    {
      out := new NextHop();
      match kind
      case KindNone =>
      case KindSimple =>
        out.SetSimple(value.simple.ifindex, value.simple.ifName.value, value.simple.addr);
      case KindSpecial =>
        out.SetSpecial(value.text);
      case KindList =>
        var i := 0;
        while i < |value.elements|
          invariant 0 <= i <= |value.elements|
          invariant out.Valid() && fresh(out.Nodes())
          invariant i == 0 ==> out.kind == KindNone && out.Zeroed() && out.Nodes() == {}
          invariant i > 0 ==> out.kind == KindList && out.View() == ListView(Contents(value.elements[..i]))
          invariant heap.live == old(heap.live) + out.Nodes()
        {
          var hop := value.elements[i].simple;
          out.AddList(heap, hop.ifindex, hop.ifName.value, hop.addr);
          i := i + 1;
        }
        assert value.elements[..i] == value.elements;
    }

    /** Releases every list node and leaves the tag at none. */
    method Free(heap: NodeHeap)
      requires Valid() && Nodes() <= heap.live
      modifies this, heap
      ensures kind == KindNone && Nodes() == {}
      ensures heap.live == old(heap.live) - old(Nodes())
    {
      if kind == KindList {
        while value.elements != []
          invariant kind == KindList && Valid() && Nodes() <= heap.live
          invariant heap.live == old(heap.live) - (old(Nodes()) - Nodes())
          invariant Nodes() <= old(Nodes())
          decreases |value.elements|
        {
          var element := value.elements[0];
          NodeSetTail(value.elements);
          value := ListHead(value.elements[1..]);
          heap.Free(element);
        }
      }
      Init();
    }
  }

  /** What route_next_hop_clone makes of a next hop. */
  function CloneView(hop: HopView): HopView {
    if hop == ListView([]) then NoHop else hop
  }

  lemma NodeSetAppend(elements: seq<HopElement>, element: HopElement)
    ensures NodeSet(elements + [element]) == NodeSet(elements) + {element}
  {
    var all := elements + [element];
    assert all[|elements|] == element;
    forall e | e in elements
      ensures e in all
    {
      var i :| 0 <= i < |elements| && elements[i] == e;
      assert all[i] == e;
    }
  }

  lemma NodeSetTail(elements: seq<HopElement>)
    requires elements != [] && Distinct(elements)
    ensures NodeSet(elements[1..]) == NodeSet(elements) - {elements[0]}
    ensures Distinct(elements[1..]) && elements[0] in NodeSet(elements)
  {
    var tail := elements[1..];
    assert elements == [elements[0]] + tail;
  }
}
