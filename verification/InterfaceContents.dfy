/** What the tree written for an interface says about it, and what the interfaces read from
    any tree say about its nodes, looked up leaf by leaf. */
module InterfaceContents {
  import opened Wrappers
  import opened Decimals
  import opened InterfaceTrees
  import opened InterfaceRoundTrips

  // ---- written trees ----

  ghost predicate TellsFlag(text: Option<string>, n: nat) {
    && (n != 0 ==> text == Some("true"))
    && (n == 0 ==> text == Some("false"))
  }

  ghost predicate TellsNumber(text: Option<string>, n: nat) {
    text.Some? && Spells(text.value, n)
  }

  ghost predicate TellsNeighbors(items: seq<Node>, neighbors: seq<Neighbor>) {
    && |items| == |neighbors|
    && forall k | 0 <= k < |items| ::
         && items[k].ListItem? && |items[k].children| == 2
         && ChildLeaf(items[k].children, "ip") == Some(neighbors[k].ip)
         && ChildLeaf(items[k].children, "link-layer-address") == Some(neighbors[k].linkLayer)
  }

  /** The leaves and lists that both families have, and no child besides. */
  ghost predicate TellsFamily(children: seq<Node>, enabled: nat, forwarding: nat, mtu: nat, addresses: nat,
      neighbors: seq<Neighbor>) {
    && TellsFlag(ChildLeaf(children, "enabled"), enabled)
    && TellsFlag(ChildLeaf(children, "forwarding"), forwarding)
    && (mtu == 0 ==> ChildLeaf(children, "mtu").None?)
    && (mtu != 0 ==> TellsNumber(ChildLeaf(children, "mtu"), mtu))
    && |ChildList(children, "address")| == addresses
    && TellsNeighbors(ChildList(children, "neighbor"), neighbors)
    && |children| == (if mtu == 0 then 2 else 3) + addresses + |neighbors|
  }

  /** The subnet is told by the leaf of its own form, or not at all. */
  ghost predicate TellsV4(item: Node, a: Ipv4Address) {
    && item.ListItem? && ChildLeaf(item.children, "ip") == Some(a.ip)
    && (a.subnet.PrefixLength? ==> TellsNumber(ChildLeaf(item.children, "prefix-length"), a.subnet.length))
    && (a.subnet.NetmaskText? ==> ChildLeaf(item.children, "netmask") == Some(a.subnet.mask))
    && |item.children| == if a.subnet.NoSubnet? then 1 else 2
  }

  ghost predicate TellsV6(item: Node, a: Ipv6Address) {
    && item.ListItem? && ChildLeaf(item.children, "ip") == Some(a.ip)
    && TellsNumber(ChildLeaf(item.children, "prefix-length"), a.length)
    && |item.children| == 2
  }

  ghost predicate TellsInterface(node: Node, i: Interface) {
    && node.ListItem? && node.name == "interface" && |node.children| == 5
    && ChildLeaf(node.children, "name") == Some(i.name)
    && ChildLeaf(node.children, "type") == Some(i.kind)
    && TellsFlag(ChildLeaf(node.children, "enabled"), i.enabled)
    && ChildContainer(node.children, "ipv4").Some? && ChildContainer(node.children, "ipv6").Some?
    && var v4, v6 := ChildContainer(node.children, "ipv4").value, ChildContainer(node.children, "ipv6").value;
       && TellsFamily(v4, i.ipv4.enabled, i.ipv4.forwarding, i.ipv4.mtu, |i.ipv4.address|, i.ipv4.neighbor)
       && TellsFamily(v6, i.ipv6.enabled, i.ipv6.forwarding, i.ipv6.mtu, |i.ipv6.address|, i.ipv6.neighbor)
       && (forall k | 0 <= k < |i.ipv4.address| :: TellsV4(ChildList(v4, "address")[k], i.ipv4.address[k]))
       && (forall k | 0 <= k < |i.ipv6.address| :: TellsV6(ChildList(v6, "address")[k], i.ipv6.address[k]))
  }

  lemma LinkLayerName()
    ensures "ip" != "link-layer-address"
  {
    assert |"ip"| == 2 && |"link-layer-address"| == 18;
  }

  lemma NeighborsTold(neighbors: seq<Neighbor>)
    ensures TellsNeighbors(NeighborItems(neighbors), neighbors)
  {
    forall k | 0 <= k < |neighbors|
      ensures ChildLeaf(NeighborItems(neighbors)[k].children, "ip") == Some(neighbors[k].ip)
      ensures ChildLeaf(NeighborItems(neighbors)[k].children, "link-layer-address") == Some(neighbors[k].linkLayer)
    {
      hide ChildLeaf;
      var children := NeighborItem(neighbors[k]).children;
      LinkLayerName();
      LeafAt(children, "ip", 0);
      LeafAt(children, "link-layer-address", 1);
    }
  }

  lemma V4Told(a: Ipv4Address)
    ensures TellsV4(V4Item(a), a)
  {
    hide ChildLeaf, Print, Spells;
    var children := V4Item(a).children;
    LeafNames();
    LeafAt(children, "ip", 0);
    match a.subnet
    case NoSubnet =>
    case PrefixLength(n) =>
      LeafAt(children, "prefix-length", 1);
      PrintSpells(n);
    case NetmaskText(mask) =>
      LeafAt(children, "netmask", 1);
  }

  lemma V6Told(a: Ipv6Address)
    ensures TellsV6(V6Item(a), a)
  {
    hide ChildLeaf, Print, Spells;
    var children := V6Item(a).children;
    LeafNames();
    LeafAt(children, "ip", 0);
    LeafAt(children, "prefix-length", 1);
    PrintSpells(a.length);
  }

  lemma FamilyTold(enabled: nat, forwarding: nat, mtu: nat, addresses: seq<Node>, neighbors: seq<Neighbor>)
    requires forall n | n in addresses :: n.ListItem? && n.name == "address"
    ensures var children := [Leaf("enabled", Bool(enabled)), Leaf("forwarding", Bool(forwarding))] + Mtu(mtu)
                            + addresses + NeighborItems(neighbors);
            && TellsFamily(children, enabled, forwarding, mtu, |addresses|, neighbors)
            && ChildList(children, "address") == addresses
  {
    hide ChildLeaf, ChildList, NeighborItem, Print, Spells, TellsNeighbors;
    MtuForm(mtu);
    NeighborForms(neighbors);
    ContainerChildren(Bool(enabled), Bool(forwarding), Mtu(mtu), addresses, NeighborItems(neighbors));
    NeighborsTold(neighbors);
    PrintSpells(mtu);
  }

  lemma NeighborForms(neighbors: seq<Neighbor>)
    ensures forall n | n in NeighborItems(neighbors) :: n.ListItem? && n.name == "neighbor"
  {
  }

  /** Every interface is written with all its leaves, addresses and neighbours, each under its
      own name and nothing else. */
  lemma WrittenInterface(hash: InterfaceHash, k: nat)
    requires k < |hash|
    ensures |ToTree(hash)| == |hash| && TellsInterface(ToTree(hash)[k], hash[k])
  {
    var i := hash[k];
    TopLevelChildren(i);
    ItemForms(i);
    FamilyTold(i.ipv4.enabled, i.ipv4.forwarding, i.ipv4.mtu, V4Items(i.ipv4.address), i.ipv4.neighbor);
    FamilyTold(i.ipv6.enabled, i.ipv6.forwarding, i.ipv6.mtu, V6Items(i.ipv6.address), i.ipv6.neighbor);
    hide ChildLeaf, ChildList, ChildContainer, TellsFamily, TellsV4, TellsV6, V4Item, V6Item, NeighborItems;
    forall k | 0 <= k < |i.ipv4.address|
      ensures TellsV4(V4Items(i.ipv4.address)[k], i.ipv4.address[k])
    {
      V4Told(i.ipv4.address[k]);
    }
    forall k | 0 <= k < |i.ipv6.address|
      ensures TellsV6(V6Items(i.ipv6.address)[k], i.ipv6.address[k])
    {
      V6Told(i.ipv6.address[k]);
    }
  }

  // ---- trees that are read ----

  function Children(node: Node): seq<Node> {
    if node.Leaf? then [] else node.children
  }

  /** The children of the ipv4 container that stands last among the first `n` interfaces. */
  function LastIpv4(nodes: seq<Node>, n: nat): seq<Node>
    requires n <= |nodes|
  {
    if n == 0 then []
    else if ChildContainer(Children(nodes[n - 1]), "ipv4").Some? then
      ChildContainer(Children(nodes[n - 1]), "ipv4").value
    else LastIpv4(nodes, n - 1)
  }

  function AddressItems(node: Node, family: string): seq<Node> {
    var container := ChildContainer(Children(node), family);
    if container.Some? then ChildList(container.value, "address") else []
  }

  predicate Has(node: Node, leaf: string) {
    ChildLeaf(Children(node), leaf).Some?
  }

  predicate LegibleV4(item: Node) {
    Has(item, "ip") && (Has(item, "prefix-length") || Has(item, "netmask"))
  }

  predicate LegibleV6(item: Node) {
    Has(item, "ip") && Has(item, "prefix-length")
  }

  /** An interface that can be read: named and typed, and every address has its ip and its
      subnet. */
  predicate Legible(node: Node) {
    && Has(node, "name") && Has(node, "type")
    && (forall a | a in AddressItems(node, "ipv4") :: LegibleV4(a))
    && (forall a | a in AddressItems(node, "ipv6") :: LegibleV6(a))
  }

  /** 1 for the text "true"; 0 for any other text and for a missing leaf. */
  ghost predicate ReadsFlag(n: nat, text: Option<string>) {
    n == if text == Some("true") then 1 else 0
  }

  ghost predicate ReadsMtu(n: nat, text: Option<string>) {
    && (text.None? ==> n == 0)
    && (text.Some? ==> n == Atoi(text.value) % 65536)
  }

  /** A prefix-length leaf takes precedence over a netmask leaf. */
  ghost predicate ReadsV4(a: Ipv4Address, item: Node) {
    && Some(a.ip) == ChildLeaf(Children(item), "ip")
    && (if Has(item, "prefix-length") then
          a.subnet.PrefixLength? && a.subnet.length == Atoi(ChildLeaf(Children(item), "prefix-length").value) % 256
        else a.subnet.NetmaskText? && Some(a.subnet.mask) == ChildLeaf(Children(item), "netmask"))
  }

  ghost predicate ReadsV6(a: Ipv6Address, item: Node) {
    && Some(a.ip) == ChildLeaf(Children(item), "ip") && Has(item, "prefix-length")
    && a.length == Atoi(ChildLeaf(Children(item), "prefix-length").value) % 256
  }

  /** What is read for node `k`: its own leaves and, last one first, its own addresses, but
      the ipv4 leaves of the last ipv4 container up to it; no neighbours and no ipv6 leaves. */
  ghost predicate Reads(i: Interface, nodes: seq<Node>, k: nat)
    requires k < |nodes|
  {
    var children, ipv4 := Children(nodes[k]), LastIpv4(nodes, k + 1);
    var v4, v6 := AddressItems(nodes[k], "ipv4"), AddressItems(nodes[k], "ipv6");
    && Some(i.name) == ChildLeaf(children, "name") && Some(i.kind) == ChildLeaf(children, "type")
    && ReadsFlag(i.enabled, ChildLeaf(children, "enabled"))
    && ReadsFlag(i.ipv4.enabled, ChildLeaf(ipv4, "enabled"))
    && ReadsFlag(i.ipv4.forwarding, ChildLeaf(ipv4, "forwarding"))
    && ReadsMtu(i.ipv4.mtu, ChildLeaf(ipv4, "mtu"))
    && |i.ipv4.address| == |v4| && (forall m | 0 <= m < |v4| :: ReadsV4(i.ipv4.address[|v4| - 1 - m], v4[m]))
    && |i.ipv6.address| == |v6| && (forall m | 0 <= m < |v6| :: ReadsV6(i.ipv6.address[|v6| - 1 - m], v6[m]))
    && i.ipv4.neighbor == [] && i.ipv6.neighbor == []
    && i.ipv6.enabled == 0 && i.ipv6.forwarding == 0 && i.ipv6.mtu == 0
  }

  lemma AddressesRead(item: Node)
    requires item.ListItem?
    ensures ReadV4Address(item).Some? <==> LegibleV4(item)
    ensures ReadV4Address(item).Some? ==> ReadsV4(ReadV4Address(item).value, item)
    ensures ReadV6Address(item).Some? <==> LegibleV6(item)
    ensures ReadV6Address(item).Some? ==> ReadsV6(ReadV6Address(item).value, item)
  {
    hide ChildLeaf, Atoi;
  }

  lemma {:induction false} V4ListReads(items: seq<Node>)
    requires AreItems(items)
    ensures ReadV4List(items).Some? <==> forall a | a in items :: LegibleV4(a)
    ensures ReadV4List(items).Some? ==>
              && |ReadV4List(items).value| == |items|
              && forall m | 0 <= m < |items| :: ReadsV4(ReadV4List(items).value[|items| - 1 - m], items[m])
  {
    hide LegibleV4, ReadsV4, ReadV4Address;
    if items != [] {
      var n := |items| - 1;
      assert items[n] in items;
      V4ListReads(items[..n]);
      AddressesRead(items[n]);
      assert forall a :: a in items <==> a in items[..n] || a == items[n];
    }
  }

  lemma {:induction false} V6ListReads(items: seq<Node>)
    requires AreItems(items)
    ensures ReadV6List(items).Some? <==> forall a | a in items :: LegibleV6(a)
    ensures ReadV6List(items).Some? ==>
              && |ReadV6List(items).value| == |items|
              && forall m | 0 <= m < |items| :: ReadsV6(ReadV6List(items).value[|items| - 1 - m], items[m])
  {
    hide LegibleV6, ReadsV6, ReadV6Address;
    if items != [] {
      var n := |items| - 1;
      assert items[n] in items;
      V6ListReads(items[..n]);
      AddressesRead(items[n]);
      assert forall a :: a in items <==> a in items[..n] || a == items[n];
    }
  }

  lemma {:induction false} ListsHoldItems(children: seq<Node>, name: string)
    ensures AreItems(ChildList(children, name))
  {
    if children != [] {
      ListsHoldItems(children[1..], name);
    }
  }

  /** The node variables hold the leaves of that container. */
  ghost predicate Holds(stale: Ipv4Nodes, ipv4: seq<Node>) {
    stale == Ipv4Nodes(ChildLeaf(ipv4, "enabled"), ChildLeaf(ipv4, "forwarding"), ChildLeaf(ipv4, "mtu"))
  }

  lemma OneReads(nodes: seq<Node>, k: nat, stale: Ipv4Nodes)
    requires k < |nodes| && nodes[k].ListItem? && Holds(stale, LastIpv4(nodes, k))
    ensures Holds(FindIpv4Nodes(nodes[k].children, stale), LastIpv4(nodes, k + 1))
    ensures ReadInterface(nodes[k], stale).Some? <==> Legible(nodes[k])
    ensures ReadInterface(nodes[k], stale).Some? ==> Reads(ReadInterface(nodes[k], stale).value, nodes, k)
  {
    hide ChildLeaf, ChildContainer, ChildList, Atoi, ReadV4List, ReadV6List, ReadsV4, ReadsV6, LegibleV4, LegibleV6,
      AreItems;
    var v4, v6 := AddressItems(nodes[k], "ipv4"), AddressItems(nodes[k], "ipv6");
    assert AddressNodes(nodes[k].children, "ipv4") == v4 && AddressNodes(nodes[k].children, "ipv6") == v6;
    ItemsAreItems(nodes[k], "ipv4");
    ItemsAreItems(nodes[k], "ipv6");
    V4ListReads(v4);
    V6ListReads(v6);
  }

  lemma ItemsAreItems(node: Node, family: string)
    ensures AreItems(AddressItems(node, family))
  {
    hide ChildList, ChildContainer;
    var container := ChildContainer(Children(node), family);
    if container.Some? {
      ListsHoldItems(container.value, "address");
    }
  }

  predicate AllLegible(nodes: seq<Node>) {
    forall k | 0 <= k < |nodes| :: Legible(nodes[k])
  }

  lemma LegibleNext(nodes: seq<Node>)
    requires nodes != [] && AreItems(nodes)
    ensures var n := |nodes| - 1;
            && AreItems(nodes[..n]) && nodes[n].ListItem?
            && (AllLegible(nodes) <==> AllLegible(nodes[..n]) && Legible(nodes[n]))
  {
    hide Legible;
    var n := |nodes| - 1;
    assert nodes[n] in nodes;
    assert forall k | 0 <= k < n :: nodes[..n][k] == nodes[k];
  }

  /** The interfaces are those of the nodes at the positions `from`: the first node of each
      name and no other, in the order of the list. */
  ghost predicate ReadFrom(hash: InterfaceHash, nodes: seq<Node>, from: seq<nat>) {
    && |from| == |hash|
    && (forall j | 0 <= j < |from| :: from[j] < |nodes| && Reads(hash[j], nodes, from[j]))
    && (forall j, m | 0 <= j < m < |from| :: from[j] < from[m])
    && (forall k | 0 <= k < |nodes| :: k in from <==> FirstOfName(nodes, k))
  }

  lemma ReadFromNext(hash: InterfaceHash, i: Interface, nodes: seq<Node>, from: seq<nat>)
    requires nodes != [] && ReadFrom(hash, nodes[..|nodes| - 1], from) && Reads(i, nodes, |nodes| - 1)
    ensures if FirstOfName(nodes, |nodes| - 1) then ReadFrom(hash + [i], nodes, from + [|nodes| - 1])
            else ReadFrom(hash, nodes, from)
  {
    hide Reads, FirstOfName;
    var n := |nodes| - 1;
    forall j | 0 <= j < |from|
      ensures Reads(hash[j], nodes, from[j])
    {
      ReadsInPrefix(hash[j], nodes, n, from[j]);
    }
    forall k | 0 <= k < n
      ensures k in from <==> FirstOfName(nodes, k)
    {
      FirstInPrefix(nodes, n, k);
    }
  }

  /** For any list of interface nodes: reading fails exactly when some node is not legible;
      otherwise the result holds, in order, what is read for the first node of each name. */
  lemma {:induction false} ReadInterfaces(nodes: seq<Node>) returns (from: seq<nat>)
    requires AreItems(nodes)
    ensures ReadNodes(nodes).Some? <==> AllLegible(nodes)
    ensures ReadNodes(nodes).Some? ==>
              && ReadFrom(ReadNodes(nodes).value.hash, nodes, from)
              && Holds(ReadNodes(nodes).value.nodes, LastIpv4(nodes, |nodes|))
  {
    from := [];
    hide ReadInterface, FindIpv4Nodes, Legible, Reads, AddElement, FirstOfName, NameOf;
    if nodes == [] {
      assert Holds(NO_NODES, []);
    } else {
      hide Holds, LastIpv4, ReadFrom, AllLegible, AreItems;
      var n := |nodes| - 1;
      LegibleNext(nodes);
      var before := ReadInterfaces(nodes[..n]);
      if ReadNodes(nodes[..n]).Some? {
        var reader := ReadNodes(nodes[..n]).value;
        LastInPrefix(nodes, n, n);
        OneReads(nodes, n, reader.nodes);
        if ReadNodes(nodes).Some? {
          var i := ReadInterface(nodes[n], reader.nodes).value;
          ReadFromNext(reader.hash, i, nodes, before);
          AddedIffFirst(nodes, reader, i);
          from := if FirstOfName(nodes, n) then before + [n] else before;
        }
      }
    }
  }

  lemma {:induction false} LastInPrefix(nodes: seq<Node>, n: nat, k: nat)
    requires k <= n <= |nodes|
    ensures LastIpv4(nodes[..n], k) == LastIpv4(nodes, k)
  {
    if k > 0 {
      LastInPrefix(nodes, n, k - 1);
    }
  }

  lemma ReadsInPrefix(i: Interface, nodes: seq<Node>, n: nat, k: nat)
    requires k < n <= |nodes| && Reads(i, nodes[..n], k)
    ensures Reads(i, nodes, k)
  {
    hide ChildLeaf, ChildContainer, AddressItems, ReadsFlag, ReadsMtu, ReadsV4, ReadsV6, LastIpv4;
    LastInPrefix(nodes, n, k + 1);
  }

  lemma FirstInPrefix(nodes: seq<Node>, n: nat, k: nat)
    requires k < n <= |nodes|
    ensures FirstOfName(nodes, k) <==> FirstOfName(nodes[..n], k)
  {
    hide NameOf;
  }

  /** The element read last is kept exactly if its node is the first of its name. */
  lemma AddedIffFirst(nodes: seq<Node>, reader: Reader, i: Interface)
    requires nodes != [] && AreItems(nodes) && ReadNodes(nodes[..|nodes| - 1]) == Some(reader)
    requires ReadInterface(nodes[|nodes| - 1], reader.nodes) == Some(i)
    ensures AddElement(reader.hash, i) ==
            if FirstOfName(nodes, |nodes| - 1) then reader.hash + [i] else reader.hash
  {
    hide ReadInterface, FindIpv4Nodes, NameOf, Occurs, ReadNodes, FirstOfName;
    var n := |nodes| - 1;
    assert nodes[n] in nodes;
    ReadTogether(nodes[..n]);
    OneElement(nodes[n], reader.nodes);
    OccursNext(nodes, i.name);
    assert HasName(reader.hash, i.name) <==> Occurs(nodes[..n], i.name);
  }
}
