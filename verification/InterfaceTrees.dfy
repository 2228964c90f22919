/** interfaces_interface_hash_to_ly and interfaces_interface_hash_from_ly
    (src/interfaces/src/plugin/data/interfaces/interface.c). */
module InterfaceTrees {
  import opened Wrappers
  import opened Decimals

  // ---- the plugin's own data ----

  datatype Subnet = NoSubnet | PrefixLength(length: nat) | NetmaskText(mask: string)

  datatype Ipv4Address = Ipv4Address(ip: string, subnet: Subnet)

  datatype Ipv6Address = Ipv6Address(ip: string, length: nat)

  datatype Neighbor = Neighbor(ip: string, linkLayer: string)

  datatype Ipv4 = Ipv4(enabled: nat, forwarding: nat, mtu: nat, address: seq<Ipv4Address>, neighbor: seq<Neighbor>)

  datatype Ipv6 = Ipv6(enabled: nat, forwarding: nat, mtu: nat, address: seq<Ipv6Address>, neighbor: seq<Neighbor>)

  datatype Interface = Interface(name: string, kind: string, enabled: nat, ipv4: Ipv4, ipv6: Ipv6)

  /** uthash keeps its elements in insertion order. */
  type InterfaceHash = seq<Interface>

  // ---- the libyang tree ----

  /** A data node; an instance of a list carries its key leaf as first child. */
  datatype Node =
    | Leaf(name: string, value: string)
    | Container(name: string, children: seq<Node>)
    | ListItem(name: string, children: seq<Node>)

  function ChildLeaf(children: seq<Node>, name: string): Option<string> {
    if children == [] then None
    else if children[0].Leaf? && children[0].name == name then Some(children[0].value)
    else ChildLeaf(children[1..], name)
  }

  function ChildContainer(children: seq<Node>, name: string): Option<seq<Node>> {
    if children == [] then None
    else if children[0].Container? && children[0].name == name then Some(children[0].children)
    else ChildContainer(children[1..], name)
  }

  /** The first instance of a list among the children and the siblings that follow it. */
  function ChildList(children: seq<Node>, name: string): seq<Node> {
    if children == [] then []
    else if children[0].ListItem? && children[0].name == name then [children[0]] + ChildList(children[1..], name)
    else ChildList(children[1..], name)
  }

  // ---- hash to tree ----

  function Bool(n: nat): string {
    if n != 0 then "true" else "false"
  }

  function V4Item(a: Ipv4Address): Node {
    ListItem("address",
      [Leaf("ip", a.ip)]
      + match a.subnet
        case NoSubnet => []
        case PrefixLength(n) => [Leaf("prefix-length", Print(n))]
        case NetmaskText(mask) => [Leaf("netmask", mask)])
  }

  function V4Items(s: seq<Ipv4Address>): (r: seq<Node>)
    ensures |r| == |s| && forall i | 0 <= i < |r| :: r[i] == V4Item(s[i])
  {
    seq(|s|, i requires 0 <= i < |s| => V4Item(s[i]))
  }

  function V6Item(a: Ipv6Address): Node {
    ListItem("address", [Leaf("ip", a.ip), Leaf("prefix-length", Print(a.length))])
  }

  function V6Items(s: seq<Ipv6Address>): (r: seq<Node>)
    ensures |r| == |s| && forall i | 0 <= i < |r| :: r[i] == V6Item(s[i])
  {
    seq(|s|, i requires 0 <= i < |s| => V6Item(s[i]))
  }

  function NeighborItem(n: Neighbor): Node {
    ListItem("neighbor", [Leaf("ip", n.ip), Leaf("link-layer-address", n.linkLayer)])
  }

  function NeighborItems(s: seq<Neighbor>): (r: seq<Node>)
    ensures |r| == |s| && forall i | 0 <= i < |r| :: r[i] == NeighborItem(s[i])
  {
    seq(|s|, i requires 0 <= i < |s| => NeighborItem(s[i]))
  }

  /** The leaf is left out when the mtu is 0. */
  function Mtu(n: nat): seq<Node> {
    if n != 0 then [Leaf("mtu", Print(n))] else []
  }

  function V4Children(v: Ipv4): seq<Node> {
    [Leaf("enabled", Bool(v.enabled)), Leaf("forwarding", Bool(v.forwarding))] + Mtu(v.mtu)
    + V4Items(v.address) + NeighborItems(v.neighbor)
  }

  function V6Children(v: Ipv6): seq<Node> {
    [Leaf("enabled", Bool(v.enabled)), Leaf("forwarding", Bool(v.forwarding))] + Mtu(v.mtu)
    + V6Items(v.address) + NeighborItems(v.neighbor)
  }

  function InterfaceNode(i: Interface): Node {
    ListItem("interface",
      [Leaf("name", i.name), Leaf("enabled", Bool(i.enabled)), Leaf("type", i.kind),
       Container("ipv4", V4Children(i.ipv4)), Container("ipv6", V6Children(i.ipv6))])
  }

  function ToTree(hash: InterfaceHash): (r: seq<Node>)
    ensures |r| == |hash| && forall i | 0 <= i < |r| :: r[i] == InterfaceNode(hash[i])
  {
    seq(|hash|, i requires 0 <= i < |hash| => InterfaceNode(hash[i]))
  }

  method HashToLy(hash: InterfaceHash) returns (nodes: seq<Node>)
    ensures nodes == ToTree(hash)
  {
    nodes := [];
    for i := 0 to |hash|
      invariant nodes == ToTree(hash[..i])
    {
      hide InterfaceNode;
      var node := WriteInterface(hash[i]);
      nodes := nodes + [node];
    }
    assert hash[..|hash|] == hash;
  }

  method WriteInterface(element: Interface) returns (node: Node)
    ensures node == InterfaceNode(element)
  {
    hide V4Children, V6Children;
    var v4 := WriteIpv4(element.ipv4);
    var v6 := WriteIpv6(element.ipv6);
    node := ListItem("interface",
      [Leaf("name", element.name), Leaf("enabled", if element.enabled != 0 then "true" else "false"),
       Leaf("type", element.kind), Container("ipv4", v4), Container("ipv6", v6)]);
  }

  method WriteIpv4(v: Ipv4) returns (nodes: seq<Node>)
    ensures nodes == V4Children(v)
  {
    hide V4Items, NeighborItems, Print;
    nodes := [Leaf("enabled", if v.enabled != 0 then "true" else "false"),
              Leaf("forwarding", if v.forwarding != 0 then "true" else "false")];
    if v.mtu != 0 {
      nodes := nodes + [Leaf("mtu", Print(v.mtu))];
    }
    var addresses := WriteV4(v.address);
    var neighbors := WriteNeighbors(v.neighbor);
    nodes := nodes + addresses + neighbors;
  }

  method WriteIpv6(v: Ipv6) returns (nodes: seq<Node>)
    ensures nodes == V6Children(v)
  {
    hide V6Items, NeighborItems, Print;
    nodes := [Leaf("enabled", if v.enabled != 0 then "true" else "false"),
              Leaf("forwarding", if v.forwarding != 0 then "true" else "false")];
    if v.mtu != 0 {
      nodes := nodes + [Leaf("mtu", Print(v.mtu))];
    }
    var addresses := WriteV6(v.address);
    var neighbors := WriteNeighbors(v.neighbor);
    nodes := nodes + addresses + neighbors;
  }

  method WriteV4(addresses: seq<Ipv4Address>) returns (nodes: seq<Node>)
    ensures nodes == V4Items(addresses)
  {
    nodes := [];
    for i := 0 to |addresses|
      invariant nodes == V4Items(addresses[..i])
    {
      var children := [Leaf("ip", addresses[i].ip)];
      match addresses[i].subnet {
        case NoSubnet =>
          assert children + [] == children;
        case PrefixLength(n) => children := children + [Leaf("prefix-length", Print(n))];
        case NetmaskText(mask) => children := children + [Leaf("netmask", mask)];
      }
      nodes := nodes + [ListItem("address", children)];
    }
    assert addresses[..|addresses|] == addresses;
  }

  method WriteV6(addresses: seq<Ipv6Address>) returns (nodes: seq<Node>)
    ensures nodes == V6Items(addresses)
  {
    nodes := [];
    for i := 0 to |addresses|
      invariant nodes == V6Items(addresses[..i])
    {
      nodes := nodes + [ListItem("address",
        [Leaf("ip", addresses[i].ip), Leaf("prefix-length", Print(addresses[i].length))])];
    }
    assert addresses[..|addresses|] == addresses;
  }

  method WriteNeighbors(neighbors: seq<Neighbor>) returns (nodes: seq<Node>)
    ensures nodes == NeighborItems(neighbors)
  {
    nodes := [];
    for i := 0 to |neighbors|
      invariant nodes == NeighborItems(neighbors[..i])
    {
      nodes := nodes + [ListItem("neighbor",
        [Leaf("ip", neighbors[i].ip), Leaf("link-layer-address", neighbors[i].linkLayer)])];
    }
    assert neighbors[..|neighbors|] == neighbors;
  }

  // ---- tree to hash ----

  function ReadBool(text: string): nat {
    if text == "true" then 1 else 0
  }

  function ReadV4Address(node: Node): Option<Ipv4Address> {
    if node.Leaf? then None else
      match ChildLeaf(node.children, "ip")
      case None => None
      case Some(ip) =>
        match ChildLeaf(node.children, "prefix-length")
        case Some(text) => Some(Ipv4Address(ip, PrefixLength(Atoi(text) % 256)))
        case None =>
          match ChildLeaf(node.children, "netmask")
          case Some(text) => Some(Ipv4Address(ip, NetmaskText(text)))
          case None => None
  }

  function ReadV6Address(node: Node): Option<Ipv6Address> {
    if node.Leaf? then None else
      match ChildLeaf(node.children, "ip")
      case None => None
      case Some(ip) =>
        match ChildLeaf(node.children, "prefix-length")
        case Some(text) => Some(Ipv6Address(ip, Atoi(text) % 256))
        case None => None
  }

  /** LL_PREPEND of each address in turn; None as soon as one is malformed. */
  function ReadV4List(nodes: seq<Node>): Option<seq<Ipv4Address>> {
    if nodes == [] then Some([]) else
      var n := |nodes| - 1;
      match ReadV4List(nodes[..n])
      case None => None
      case Some(before) =>
        match ReadV4Address(nodes[n])
        case None => None
        case Some(a) => Some([a] + before)
  }

  function ReadV6List(nodes: seq<Node>): Option<seq<Ipv6Address>> {
    if nodes == [] then Some([]) else
      var n := |nodes| - 1;
      match ReadV6List(nodes[..n])
      case None => None
      case Some(before) =>
        match ReadV6Address(nodes[n])
        case None => None
        case Some(a) => Some([a] + before)
  }

  /** The node variables that live across iterations of the interface loop: without an
      ipv4 container they keep pointing into the previous interface. */
  datatype Ipv4Nodes = Ipv4Nodes(enabled: Option<string>, forwarding: Option<string>, mtu: Option<string>)

  const NO_NODES := Ipv4Nodes(None, None, None)

  function FindIpv4Nodes(children: seq<Node>, stale: Ipv4Nodes): Ipv4Nodes {
    match ChildContainer(children, "ipv4")
    case None => stale
    case Some(v4) => Ipv4Nodes(ChildLeaf(v4, "enabled"), ChildLeaf(v4, "forwarding"), ChildLeaf(v4, "mtu"))
  }

  function AddressNodes(children: seq<Node>, family: string): seq<Node> {
    match ChildContainer(children, family)
    case None => []
    case Some(container) => ChildList(container, "address")
  }

  function OrZero(text: Option<string>): nat {
    if text.Some? then ReadBool(text.value) else 0
  }

  /** One interface, given the node variables left by its predecessors. */
  function ReadInterface(node: Node, stale: Ipv4Nodes): Option<Interface> {
    if node.Leaf? then None else
      var name := ChildLeaf(node.children, "name");
      var kind := ChildLeaf(node.children, "type");
      var nodes := FindIpv4Nodes(node.children, stale);
      var v4 := ReadV4List(AddressNodes(node.children, "ipv4"));
      var v6 := ReadV6List(AddressNodes(node.children, "ipv6"));
      if name.None? || kind.None? || v4.None? || v6.None? then None
      else Some(Interface(name.value, kind.value, OrZero(ChildLeaf(node.children, "enabled")),
             Ipv4(OrZero(nodes.enabled), OrZero(nodes.forwarding),
                  if nodes.mtu.Some? then Atoi(nodes.mtu.value) % 65536 else 0, v4.value, []),
             Ipv6(0, 0, 0, v6.value, [])))
  }

  /** hash_add_element refuses a known name; its result is ignored. */
  function AddElement(hash: InterfaceHash, i: Interface): InterfaceHash {
    if exists e | e in hash :: e.name == i.name then hash else hash + [i]
  }

  datatype Reader = Reader(hash: InterfaceHash, nodes: Ipv4Nodes)

  function ReadNodes(nodes: seq<Node>): Option<Reader> {
    if nodes == [] then Some(Reader([], NO_NODES)) else
      var n := |nodes| - 1;
      match ReadNodes(nodes[..n])
      case None => None
      case Some(reader) =>
        match ReadInterface(nodes[n], reader.nodes)
        case None => None
        case Some(i) => Some(Reader(AddElement(reader.hash, i), FindIpv4Nodes(nodes[n].children, reader.nodes)))
  }

  predicate AreItems(nodes: seq<Node>) {
    forall n | n in nodes :: n.ListItem?
  }

  lemma {:induction false} ReadStaysFailed(nodes: seq<Node>, n: nat)
    requires n <= |nodes| && ReadNodes(nodes[..n]).None?
    ensures ReadNodes(nodes).None?
  {
    if n == |nodes| {
      assert nodes[..n] == nodes;
    } else {
      assert nodes[..|nodes| - 1][..n] == nodes[..n];
      ReadStaysFailed(nodes[..|nodes| - 1], n);
    }
  }

  /** Node `n` is the first that cannot be read. */
  predicate StopsAt(nodes: seq<Node>, n: nat)
    requires n < |nodes|
  {
    ReadNodes(nodes[..n]).Some? && ReadNodes(nodes[..n + 1]).None?
  }

  /** Starts from an empty hash, as the source asserts; an error leaves in it what was read
      before the node that cannot be read. */
  method HashFromLy(nodes: seq<Node>) returns (error: int, hash: InterfaceHash)
    requires AreItems(nodes)
    ensures error == if ReadNodes(nodes).Some? then 0 else -1
    ensures error == 0 ==> hash == ReadNodes(nodes).value.hash
    ensures error != 0 ==> exists n: nat :: n < |nodes| && StopsAt(nodes, n) && hash == ReadNodes(nodes[..n]).value.hash
  {
    error, hash := 0, [];
    var v4Nodes := NO_NODES;
    for i := 0 to |nodes|
      invariant error == 0 && ReadNodes(nodes[..i]) == Some(Reader(hash, v4Nodes))
    {
      hide ReadInterface, FindIpv4Nodes;
      assert nodes[..i + 1][..i] == nodes[..i];
      assert nodes[i] in nodes;
      var element: Interface;
      error, element, v4Nodes := ReadElement(nodes[i], v4Nodes);
      if error != 0 {
        ReadStaysFailed(nodes, i + 1);
        assert StopsAt(nodes, i);
        return;
      }
      if !exists e | e in hash :: e.name == element.name {
        hash := hash + [element];
      }
    }
    assert nodes[..|nodes|] == nodes;
  }

  /** One iteration; `nodes` are the node variables that outlive it. */
  method ReadElement(node: Node, nodes: Ipv4Nodes) returns (error: int, element: Interface, next: Ipv4Nodes)
    requires node.ListItem?
    ensures error == if ReadInterface(node, nodes).Some? then 0 else -1
    ensures error == 0 ==> Some(element) == ReadInterface(node, nodes)
    ensures next == FindIpv4Nodes(node.children, nodes)
  {
    hide ReadV4List, ReadV6List, ChildLeaf, ChildContainer, ChildList, ReadBool, Atoi;
    error, next := 0, nodes;
    element := Interface("", "", 0, Ipv4(0, 0, 0, [], []), Ipv6(0, 0, 0, [], []));
    var name, kind := ChildLeaf(node.children, "name"), ChildLeaf(node.children, "type");
    var enabled := ChildLeaf(node.children, "enabled");
    var v4Container, v6Container := ChildContainer(node.children, "ipv4"), ChildContainer(node.children, "ipv6");
    var v4Items, v6Items := [], [];
    if v4Container.Some? {
      next := Ipv4Nodes(ChildLeaf(v4Container.value, "enabled"), ChildLeaf(v4Container.value, "forwarding"),
                        ChildLeaf(v4Container.value, "mtu"));
      v4Items := ChildList(v4Container.value, "address");
    }
    if v6Container.Some? {
      v6Items := ChildList(v6Container.value, "address");
    }
    if name.None? || kind.None? {
      error := -1;
      return;
    }
    element := element.(name := name.value, kind := kind.value);
    if enabled.Some? {
      element := element.(enabled := ReadBool(enabled.value));
    }
    if next.enabled.Some? {
      element := element.(ipv4 := element.ipv4.(enabled := ReadBool(next.enabled.value)));
    }
    if next.forwarding.Some? {
      element := element.(ipv4 := element.ipv4.(forwarding := ReadBool(next.forwarding.value)));
    }
    if next.mtu.Some? {
      element := element.(ipv4 := element.ipv4.(mtu := Atoi(next.mtu.value) % 65536));
    }
    var v4, v6;
    error, v4 := ReadV4(v4Items);
    if error == 0 {
      error, v6 := ReadV6(v6Items);
      if error == 0 {
        element := element.(ipv4 := element.ipv4.(address := v4), ipv6 := element.ipv6.(address := v6));
      }
    }
  }

  method ReadV4(nodes: seq<Node>) returns (error: int, addresses: seq<Ipv4Address>)
    ensures error == if ReadV4List(nodes).Some? then 0 else -1
    ensures error == 0 ==> addresses == ReadV4List(nodes).value
  {
    error, addresses := 0, [];
    for i := 0 to |nodes|
      invariant error == 0 && ReadV4List(nodes[..i]) == Some(addresses)
    {
      assert nodes[..i + 1][..i] == nodes[..i];
      var a := ReadV4Address(nodes[i]);
      if a.None? {
        V4StaysFailed(nodes, i + 1);
        return -1, addresses;
      }
      addresses := [a.value] + addresses;
    }
    assert nodes[..|nodes|] == nodes;
  }

  lemma {:induction false} V4StaysFailed(nodes: seq<Node>, n: nat)
    requires n <= |nodes| && ReadV4List(nodes[..n]).None?
    ensures ReadV4List(nodes).None?
  {
    if n == |nodes| {
      assert nodes[..n] == nodes;
    } else {
      assert nodes[..|nodes| - 1][..n] == nodes[..n];
      V4StaysFailed(nodes[..|nodes| - 1], n);
    }
  }

  method ReadV6(nodes: seq<Node>) returns (error: int, addresses: seq<Ipv6Address>)
    ensures error == if ReadV6List(nodes).Some? then 0 else -1
    ensures error == 0 ==> addresses == ReadV6List(nodes).value
  {
    error, addresses := 0, [];
    for i := 0 to |nodes|
      invariant error == 0 && ReadV6List(nodes[..i]) == Some(addresses)
    {
      assert nodes[..i + 1][..i] == nodes[..i];
      var a := ReadV6Address(nodes[i]);
      if a.None? {
        V6StaysFailed(nodes, i + 1);
        return -1, addresses;
      }
      addresses := [a.value] + addresses;
    }
    assert nodes[..|nodes|] == nodes;
  }

  lemma {:induction false} V6StaysFailed(nodes: seq<Node>, n: nat)
    requires n <= |nodes| && ReadV6List(nodes[..n]).None?
    ensures ReadV6List(nodes).None?
  {
    if n == |nodes| {
      assert nodes[..n] == nodes;
    } else {
      assert nodes[..|nodes| - 1][..n] == nodes[..n];
      V6StaysFailed(nodes[..|nodes| - 1], n);
    }
  }
}
