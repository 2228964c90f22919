/** Writing the interfaces to a libyang tree and reading them back. */
module InterfaceRoundTrips {
  import opened Wrappers
  import opened Decimals
  import opened InterfaceTrees

  function Reverse<T>(s: seq<T>): (r: seq<T>)
    ensures |r| == |s| && forall i | 0 <= i < |s| :: r[i] == s[|s| - 1 - i]
  {
    if s == [] then [] else [s[|s| - 1]] + Reverse(s[..|s| - 1])
  }

  lemma ReverseTwice<T>(s: seq<T>)
    ensures Reverse(Reverse(s)) == s
  {
  }

  function Flag(n: nat): nat {
    if n != 0 then 1 else 0
  }

  /** What survives a round trip: booleans as 0 or 1, each address list reversed, neither
      the neighbours nor the other IPv6 leaves. */
  function Kept(i: Interface): Interface {
    Interface(i.name, i.kind, Flag(i.enabled),
      Ipv4(Flag(i.ipv4.enabled), Flag(i.ipv4.forwarding), i.ipv4.mtu, Reverse(i.ipv4.address), []),
      Ipv6(0, 0, 0, Reverse(i.ipv6.address), []))
  }

  function KeptAll(hash: InterfaceHash): (r: InterfaceHash)
    ensures |r| == |hash| && forall i | 0 <= i < |r| :: r[i] == Kept(hash[i])
  {
    seq(|hash|, i requires 0 <= i < |hash| => Kept(hash[i]))
  }

  /** The fields fit the widths of their C types. */
  predicate Fits(i: Interface) {
    && i.ipv4.mtu < 65536
    && (forall a | a in i.ipv4.address :: a.subnet.PrefixLength? ==> a.subnet.length < 256)
    && (forall a | a in i.ipv6.address :: a.length < 256)
  }

  predicate SubnetsSet(i: Interface) {
    forall a | a in i.ipv4.address :: !a.subnet.NoSubnet?
  }

  predicate AllSubnetsSet(hash: InterfaceHash) {
    forall i | i in hash :: SubnetsSet(i)
  }

  /** A hash table has one element per name. */
  ghost predicate Keyed(hash: InterfaceHash) {
    forall i, j | 0 <= i < j < |hash| :: hash[i].name != hash[j].name
  }

  // ---- lookups among children ----

  lemma {:induction false} ChildListAppend(a: seq<Node>, b: seq<Node>, name: string)
    ensures ChildList(a + b, name) == ChildList(a, name) + ChildList(b, name)
  {
    if a == [] {
      assert a + b == b;
    } else {
      assert (a + b)[0] == a[0] && (a + b)[1..] == a[1..] + b;
      ChildListAppend(a[1..], b, name);
    }
  }

  lemma {:induction false} ChildListAll(nodes: seq<Node>, name: string)
    requires forall n | n in nodes :: n.ListItem? && n.name == name
    ensures ChildList(nodes, name) == nodes
  {
    if nodes != [] {
      ChildListAll(nodes[1..], name);
    }
  }

  lemma {:induction false} ChildListNone(nodes: seq<Node>, name: string)
    requires forall n | n in nodes :: !n.ListItem? || n.name != name
    ensures ChildList(nodes, name) == []
  {
    if nodes != [] {
      ChildListNone(nodes[1..], name);
    }
  }

  lemma {:induction false} ChildLeafSkips(a: seq<Node>, b: seq<Node>, name: string)
    ensures ChildLeaf(a + b, name) == if ChildLeaf(a, name).Some? then ChildLeaf(a, name) else ChildLeaf(b, name)
  {
    if a == [] {
      assert a + b == b;
    } else {
      assert (a + b)[0] == a[0] && (a + b)[1..] == a[1..] + b;
      ChildLeafSkips(a[1..], b, name);
    }
  }

  predicate IsLeaf(n: Node, name: string) {
    n.Leaf? && n.name == name
  }

  predicate IsContainer(n: Node, name: string) {
    n.Container? && n.name == name
  }

  lemma {:induction false} LeafAt(children: seq<Node>, name: string, k: nat)
    requires k < |children| && IsLeaf(children[k], name) && forall j | 0 <= j < k :: !IsLeaf(children[j], name)
    ensures ChildLeaf(children, name) == Some(children[k].value)
  {
    if k > 0 {
      assert !IsLeaf(children[0], name);
      assert forall j | 0 <= j < k - 1 :: children[1..][j] == children[j + 1];
      LeafAt(children[1..], name, k - 1);
    }
  }

  lemma {:induction false} ContainerAt(children: seq<Node>, name: string, k: nat)
    requires k < |children| && IsContainer(children[k], name)
            && forall j | 0 <= j < k :: !IsContainer(children[j], name)
    ensures ChildContainer(children, name) == Some(children[k].children)
  {
    if k > 0 {
      assert !IsContainer(children[0], name);
      assert forall j | 0 <= j < k - 1 :: children[1..][j] == children[j + 1];
      ContainerAt(children[1..], name, k - 1);
    }
  }

  lemma {:induction false} NoLeaf(nodes: seq<Node>, name: string)
    requires forall n | n in nodes :: !IsLeaf(n, name)
    ensures ChildLeaf(nodes, name) == None
  {
    if nodes != [] {
      assert nodes[0] in nodes;
      NoLeaf(nodes[1..], name);
    }
  }

  /** The leaf names of the module are told apart by length or by one character. */
  lemma LeafNames()
    ensures "name" != "enabled" && "name" != "type" && "enabled" != "type"
    ensures "enabled" != "forwarding" && "enabled" != "mtu" && "forwarding" != "mtu"
    ensures "ip" != "prefix-length" && "ip" != "netmask" && "prefix-length" != "netmask"
    ensures "ipv4" != "ipv6"
  {
    assert |"name"| == 4 && |"type"| == 4 && |"enabled"| == 7 && |"forwarding"| == 10 && |"mtu"| == 3;
    assert |"ip"| == 2 && |"prefix-length"| == 13 && |"netmask"| == 7;
    assert "name"[0] == 'n' && "type"[0] == 't' && "ipv4"[3] == '4' && "ipv6"[3] == '6';
  }

  /** Children of an IP container: three leaves, then addresses, then neighbours. */
  lemma ContainerChildren(enabled: string, forwarding: string, mtu: seq<Node>, addresses: seq<Node>,
      neighbors: seq<Node>)
    requires mtu == [] || exists text :: mtu == [Leaf("mtu", text)]
    requires forall n | n in addresses :: n.ListItem? && n.name == "address"
    requires forall n | n in neighbors :: n.ListItem? && n.name == "neighbor"
    ensures var children := [Leaf("enabled", enabled), Leaf("forwarding", forwarding)] + mtu + addresses + neighbors;
            && ChildLeaf(children, "enabled") == Some(enabled)
            && ChildLeaf(children, "forwarding") == Some(forwarding)
            && ChildLeaf(children, "mtu") == (if mtu == [] then None else Some(mtu[0].value))
            && ChildList(children, "address") == addresses
            && ChildList(children, "neighbor") == neighbors
  {
    var leaves := [Leaf("enabled", enabled), Leaf("forwarding", forwarding)] + mtu;
    var lists := addresses + neighbors;
    var children := leaves + lists;
    assert leaves + addresses + neighbors == children;
    LeafNames();
    assert |"address"| == 7 && "address"[0] == 'a' && "neighbor"[0] == 'n';
    LeafAt(children, "enabled", 0);
    LeafAt(children, "forwarding", 1);
    if mtu == [] {
      NoLeaf(children, "mtu");
    } else {
      LeafAt(children, "mtu", 2);
    }
    ChildListNone(leaves, "address");
    ChildListAppend(leaves, lists, "address");
    ChildListAppend(addresses, neighbors, "address");
    ChildListAll(addresses, "address");
    ChildListNone(neighbors, "address");
    ChildListNone(leaves, "neighbor");
    ChildListAppend(leaves, lists, "neighbor");
    ChildListAppend(addresses, neighbors, "neighbor");
    ChildListNone(addresses, "neighbor");
    ChildListAll(neighbors, "neighbor");
  }

  // ---- one address, one list ----

  lemma V4AddressRoundTrip(a: Ipv4Address)
    requires a.subnet.PrefixLength? ==> a.subnet.length < 256
    ensures ReadV4Address(V4Item(a)) == if a.subnet.NoSubnet? then None else Some(a)
  {
    hide Print, Atoi, ChildLeaf;
    var children := V4Item(a).children;
    LeafNames();
    LeafAt(children, "ip", 0);
    match a.subnet
    case NoSubnet =>
      NoLeaf(children, "prefix-length");
      NoLeaf(children, "netmask");
    case PrefixLength(n) =>
      LeafAt(children, "prefix-length", 1);
      PrintThenRead(n);
    case NetmaskText(mask) =>
      NoLeaf(children, "prefix-length");
      LeafAt(children, "netmask", 1);
  }

  lemma V6AddressRoundTrip(a: Ipv6Address)
    requires a.length < 256
    ensures ReadV6Address(V6Item(a)) == Some(a)
  {
    hide Print, Atoi, ChildLeaf;
    var children := V6Item(a).children;
    LeafNames();
    LeafAt(children, "ip", 0);
    LeafAt(children, "prefix-length", 1);
    PrintThenRead(a.length);
  }

  lemma {:induction false} V4ListRoundTrip(s: seq<Ipv4Address>)
    requires forall a | a in s :: a.subnet.PrefixLength? ==> a.subnet.length < 256
    ensures ReadV4List(V4Items(s)) == if forall a | a in s :: !a.subnet.NoSubnet? then Some(Reverse(s)) else None
  {
    if s != [] {
      hide ReadV4Address, V4Item;
      var n := |s| - 1;
      V4ListRoundTrip(s[..n]);
      V4AddressRoundTrip(s[n]);
      assert V4Items(s)[..n] == V4Items(s[..n]);
      assert s == s[..n] + [s[n]];
    }
  }

  lemma {:induction false} V6ListRoundTrip(s: seq<Ipv6Address>)
    requires forall a | a in s :: a.length < 256
    ensures ReadV6List(V6Items(s)) == Some(Reverse(s))
  {
    if s != [] {
      hide ReadV6Address, V6Item;
      var n := |s| - 1;
      V6ListRoundTrip(s[..n]);
      V6AddressRoundTrip(s[n]);
      assert V6Items(s)[..n] == V6Items(s[..n]);
    }
  }

  // ---- one interface ----

  lemma TopLevelChildren(i: Interface)
    ensures var children := InterfaceNode(i).children;
            && ChildLeaf(children, "name") == Some(i.name)
            && ChildLeaf(children, "enabled") == Some(Bool(i.enabled))
            && ChildLeaf(children, "type") == Some(i.kind)
            && ChildContainer(children, "ipv4") == Some(V4Children(i.ipv4))
            && ChildContainer(children, "ipv6") == Some(V6Children(i.ipv6))
  {
    hide V4Children, V6Children, ChildLeaf, ChildContainer;
    var c := InterfaceNode(i).children;
    LeafNames();
    LeafAt(c, "name", 0);
    LeafAt(c, "enabled", 1);
    LeafAt(c, "type", 2);
    ContainerAt(c, "ipv4", 3);
    ContainerAt(c, "ipv6", 4);
  }

  lemma MtuForm(n: nat)
    ensures Mtu(n) == [] || exists text :: Mtu(n) == [Leaf("mtu", text)]
  {
    if n != 0 {
      assert Mtu(n) == [Leaf("mtu", Print(n))];
    }
  }

  /** Whatever the earlier interfaces left behind, a written interface is read from its
      own leaves; it is rejected exactly when some IPv4 subnet is unset. */
  lemma InterfaceRoundTrip(i: Interface, stale: Ipv4Nodes)
    requires Fits(i)
    ensures InterfaceNode(i).ListItem?
    ensures ReadInterface(InterfaceNode(i), stale) == if SubnetsSet(i) then Some(Kept(i)) else None
  {
    NodeIsItem(i);
    hide InterfaceNode, V4Children, V6Children, ChildLeaf, ChildContainer, ChildList, ReadV4List, ReadV6List, Bool,
      ReadBool, Atoi, Reverse;
    TopLevelChildren(i);
    V4ContainerRead(i);
    V6ContainerRead(i);
    BoolRoundTrip(i.enabled);
    BoolRoundTrip(i.ipv4.enabled);
    BoolRoundTrip(i.ipv4.forwarding);
  }

  lemma V4ContainerRead(i: Interface)
    requires Fits(i)
    ensures var children := V4Children(i.ipv4);
            && ChildLeaf(children, "enabled") == Some(Bool(i.ipv4.enabled))
            && ChildLeaf(children, "forwarding") == Some(Bool(i.ipv4.forwarding))
            && (var mtu := ChildLeaf(children, "mtu"); (if mtu.Some? then Atoi(mtu.value) % 65536 else 0) == i.ipv4.mtu)
            && ReadV4List(ChildList(children, "address")) ==
               if SubnetsSet(i) then Some(Reverse(i.ipv4.address)) else None
  {
    hide ChildLeaf, ChildList, V4Items, NeighborItems, Print, Atoi, ReadV4List, Bool, Reverse;
    MtuForm(i.ipv4.mtu);
    ItemForms(i);
    ContainerChildren(Bool(i.ipv4.enabled), Bool(i.ipv4.forwarding), Mtu(i.ipv4.mtu),
      V4Items(i.ipv4.address), NeighborItems(i.ipv4.neighbor));
    V4ListRoundTrip(i.ipv4.address);
    PrintThenRead(i.ipv4.mtu);
  }

  lemma V6ContainerRead(i: Interface)
    requires Fits(i)
    ensures ReadV6List(ChildList(V6Children(i.ipv6), "address")) == Some(Reverse(i.ipv6.address))
  {
    hide ChildLeaf, ChildList, V6Items, NeighborItems, Print, ReadV6List, Bool, Reverse;
    MtuForm(i.ipv6.mtu);
    ItemForms(i);
    ContainerChildren(Bool(i.ipv6.enabled), Bool(i.ipv6.forwarding), Mtu(i.ipv6.mtu),
      V6Items(i.ipv6.address), NeighborItems(i.ipv6.neighbor));
    V6ListRoundTrip(i.ipv6.address);
  }

  lemma NodeIsItem(i: Interface)
    ensures InterfaceNode(i).ListItem?
  {
  }

  lemma ItemForms(i: Interface)
    ensures forall n | n in V4Items(i.ipv4.address) :: n.ListItem? && n.name == "address"
    ensures forall n | n in V6Items(i.ipv6.address) :: n.ListItem? && n.name == "address"
    ensures forall n | n in NeighborItems(i.ipv4.neighbor) :: n.ListItem? && n.name == "neighbor"
    ensures forall n | n in NeighborItems(i.ipv6.neighbor) :: n.ListItem? && n.name == "neighbor"
  {
  }

  lemma BoolRoundTrip(n: nat)
    ensures ReadBool(Bool(n)) == Flag(n)
  {
    assert |"true"| == 4 && |"false"| == 5;
  }

  // ---- the whole table ----

  /** Reading what was written succeeds exactly when every IPv4 address has its subnet, and
      then returns the interfaces in order, each as Kept says. */
  lemma {:induction false} RoundTrip(hash: InterfaceHash)
    requires Keyed(hash) && forall i | i in hash :: Fits(i)
    ensures ReadNodes(ToTree(hash)).Some? <==> AllSubnetsSet(hash)
    ensures ReadNodes(ToTree(hash)).Some? ==> ReadNodes(ToTree(hash)).value.hash == KeptAll(hash)
  {
    if hash == [] {
      assert ToTree(hash) == [] && KeptAll(hash) == [];
    } else {
      hide ReadNodes, ReadInterface, InterfaceNode, FindIpv4Nodes, Fits, SubnetsSet, AllSubnetsSet, AddElement, Kept,
        KeptAll, Keyed, ToTree;
      var n := |hash| - 1;
      assert hash == hash[..n] + [hash[n]];
      KeyedInit(hash);
      RoundTrip(hash[..n]);
      AllSetSnoc(hash);
      AddKept(hash);
      ReadOneMore(hash);
      if ReadNodes(ToTree(hash[..n])).Some? {
        InterfaceRoundTrip(hash[n], ReadNodes(ToTree(hash[..n])).value.nodes);
      }
    }
  }

  /** The last iteration of reading a written table. */
  lemma ReadOneMore(hash: InterfaceHash)
    requires hash != []
    ensures var n := |hash| - 1;
            var before := ReadNodes(ToTree(hash[..n]));
            var read := if before.None? then None else ReadInterface(InterfaceNode(hash[n]), before.value.nodes);
            && (ReadNodes(ToTree(hash)).Some? <==> read.Some?)
            && (read.Some? ==> ReadNodes(ToTree(hash)).value.hash == AddElement(before.value.hash, read.value))
  {
    hide ReadInterface, InterfaceNode, FindIpv4Nodes, AddElement;
    assert ToTree(hash)[..|hash| - 1] == ToTree(hash[..|hash| - 1]);
  }

  lemma AllSetSnoc(hash: InterfaceHash)
    requires hash != []
    ensures AllSubnetsSet(hash) <==> AllSubnetsSet(hash[..|hash| - 1]) && SubnetsSet(hash[|hash| - 1])
  {
    assert hash == hash[..|hash| - 1] + [hash[|hash| - 1]];
  }

  lemma KeyedInit(hash: InterfaceHash)
    requires Keyed(hash) && hash != []
    ensures Keyed(hash[..|hash| - 1])
  {
  }

  lemma AddKept(hash: InterfaceHash)
    requires Keyed(hash) && hash != []
    ensures AddElement(KeptAll(hash[..|hash| - 1]), Kept(hash[|hash| - 1])) == KeptAll(hash)
  {
    var n := |hash| - 1;
    forall e | e in KeptAll(hash[..n])
      ensures e.name != hash[n].name
    {
      var j :| 0 <= j < n && KeptAll(hash[..n])[j] == e;
    }
    assert KeptAll(hash) == KeptAll(hash[..n]) + [Kept(hash[n])];
  }

  /** A second round trip never fails once the first has succeeded. */
  lemma KeptFits(hash: InterfaceHash)
    requires Keyed(hash) && forall i | i in hash :: Fits(i) && SubnetsSet(i)
    ensures Keyed(KeptAll(hash)) && forall i | i in KeptAll(hash) :: Fits(i) && SubnetsSet(i)
  {
    forall i | i in KeptAll(hash)
      ensures Fits(i) && SubnetsSet(i)
    {
      var j :| 0 <= j < |hash| && KeptAll(hash)[j] == i;
      assert hash[j] in hash && i == Kept(hash[j]);
      OneKeptFits(hash[j]);
    }
  }

  lemma OneKeptFits(i: Interface)
    requires Fits(i) && SubnetsSet(i)
    ensures Fits(Kept(i)) && SubnetsSet(Kept(i))
  {
    hide Reverse;
    ReverseMembers(i.ipv4.address);
    ReverseMembers(i.ipv6.address);
  }

  lemma ReverseMembers<T(!new)>(s: seq<T>)
    ensures forall x :: x in Reverse(s) <==> x in s
  {
    forall x | x in s
      ensures x in Reverse(s)
    {
      var i :| 0 <= i < |s| && s[i] == x;
      assert Reverse(s)[|s| - 1 - i] == x;
    }
  }

  /** Writing and reading a table twice always succeeds after the first success; it restores
      both address lists and loses nothing beyond what one round trip loses. */
  lemma TwoRoundTrips(hash: InterfaceHash)
    requires Keyed(hash) && AllSubnetsSet(hash) && forall i | i in hash :: Fits(i)
    ensures ReadNodes(ToTree(hash)).Some?
    ensures var once := ReadNodes(ToTree(hash)).value.hash;
            && ReadNodes(ToTree(once)).Some?
            && var twice := ReadNodes(ToTree(once)).value.hash;
               && |twice| == |hash|
               && forall k | 0 <= k < |hash| ::
                    twice[k] == Kept(hash[k]).(ipv4 := Kept(hash[k]).ipv4.(address := hash[k].ipv4.address),
                                               ipv6 := Kept(hash[k]).ipv6.(address := hash[k].ipv6.address))
  {
    hide ReadNodes, ToTree, Reverse, Fits, SubnetsSet;
    RoundTrip(hash);
    KeptFits(hash);
    RoundTrip(KeptAll(hash));
    forall k | 0 <= k < |hash|
      ensures KeptAll(KeptAll(hash))[k] == Kept(hash[k]).(ipv4 := Kept(hash[k]).ipv4.(address := hash[k].ipv4.address),
                                                           ipv6 := Kept(hash[k]).ipv6.(address := hash[k].ipv6.address))
    {
      ReverseTwice(hash[k].ipv4.address);
      ReverseTwice(hash[k].ipv6.address);
    }
  }

  // ---- trees that were not written by the plugin ----

  /** Reference design: every interface is read from its own nodes alone. */
  function ReadEach(nodes: seq<Node>): Option<InterfaceHash> {
    if nodes == [] then Some([]) else
      var n := |nodes| - 1;
      match (ReadEach(nodes[..n]), ReadInterface(nodes[n], NO_NODES))
      case (Some(hash), Some(i)) => Some(AddElement(hash, i))
      case _ => None
  }

  predicate HasIpv4(node: Node) {
    !node.Leaf? && ChildContainer(node.children, "ipv4").Some?
  }

  function NameOf(node: Node): Option<string> {
    if node.Leaf? then None else ChildLeaf(node.children, "name")
  }

  /** The IPv4 leaves of the last interface that has an ipv4 container. */
  function LastLeaves(nodes: seq<Node>): Ipv4Nodes {
    if nodes == [] then NO_NODES else
      var node := nodes[|nodes| - 1];
      if HasIpv4(node) then FindIpv4Nodes(node.children, NO_NODES) else LastLeaves(nodes[..|nodes| - 1])
  }

  predicate ReadsAsZero(leaves: Ipv4Nodes) {
    && OrZero(leaves.enabled) == 0 && OrZero(leaves.forwarding) == 0
    && (leaves.mtu.Some? ==> Atoi(leaves.mtu.value) % 65536 == 0)
  }

  /** The first interface of its name; later ones of the same name are dropped. */
  predicate FirstOfName(nodes: seq<Node>, k: nat)
    requires k < |nodes|
  {
    forall j | 0 <= j < k :: NameOf(nodes[j]) != NameOf(nodes[k])
  }

  /** Before each interface without an ipv4 container, the last one with a container has
      leaves that read as zero. */
  predicate NothingLeftOver(nodes: seq<Node>) {
    forall k | 0 <= k < |nodes| && !HasIpv4(nodes[k]) && FirstOfName(nodes, k) :: ReadsAsZero(LastLeaves(nodes[..k]))
  }

  /** One iteration, given what the earlier ones left in the node variables. */
  lemma OneElement(node: Node, stale: Ipv4Nodes)
    requires node.ListItem?
    ensures ReadInterface(node, stale).Some? <==> ReadInterface(node, NO_NODES).Some?
    ensures ReadInterface(node, stale).Some? ==>
              && (ReadInterface(node, stale) == ReadInterface(node, NO_NODES) <==> HasIpv4(node) || ReadsAsZero(stale))
              && NameOf(node) == Some(ReadInterface(node, stale).value.name)
              && NameOf(node) == Some(ReadInterface(node, NO_NODES).value.name)
  {
    hide ChildLeaf, ChildContainer, ChildList, ReadV4List, ReadV6List, Atoi, ReadBool;
  }

  ghost predicate SameNames(a: InterfaceHash, b: InterfaceHash) {
    |a| == |b| && forall i | 0 <= i < |a| :: a[i].name == b[i].name
  }

  ghost predicate HasName(hash: InterfaceHash, name: string) {
    exists e | e in hash :: e.name == name
  }

  lemma SameNamesAdd(a: InterfaceHash, b: InterfaceHash, x: Interface, y: Interface)
    requires SameNames(a, b) && x.name == y.name
    ensures HasName(a, x.name) <==> HasName(b, x.name)
    ensures SameNames(AddElement(a, x), AddElement(b, y))
    ensures AddElement(a, x) == AddElement(b, y) <==> a == b && (HasName(a, x.name) || x == y)
    ensures forall name :: HasName(AddElement(a, x), name) <==> HasName(a, name) || name == x.name
  {
    if HasName(a, x.name) {
      var i :| 0 <= i < |a| && a[i].name == x.name;
      assert b[i] in b;
    }
    if HasName(b, x.name) {
      var i :| 0 <= i < |b| && b[i].name == x.name;
      assert a[i] in a;
    }
    if !HasName(a, x.name) {
      assert (a + [x])[..|a|] == a && (b + [y])[..|b|] == b;
      assert (a + [x])[|a|] == x && (b + [y])[|b|] == y;
      forall name
        ensures HasName(a + [x], name) <==> HasName(a, name) || name == x.name
      {
        assert x in a + [x] && forall e | e in a :: e in a + [x];
      }
    }
  }

  ghost predicate Occurs(nodes: seq<Node>, name: string) {
    exists j | 0 <= j < |nodes| :: NameOf(nodes[j]) == Some(name)
  }

  lemma OccursNext(nodes: seq<Node>, name: string)
    requires nodes != []
    ensures Occurs(nodes, name) <==> Occurs(nodes[..|nodes| - 1], name) || NameOf(nodes[|nodes| - 1]) == Some(name)
    ensures FirstOfName(nodes, |nodes| - 1) && NameOf(nodes[|nodes| - 1]) == Some(name) ==>
            !Occurs(nodes[..|nodes| - 1], name)
    ensures !FirstOfName(nodes, |nodes| - 1) && NameOf(nodes[|nodes| - 1]) == Some(name) ==>
            Occurs(nodes[..|nodes| - 1], name)
  {
    hide NameOf;
    var n := |nodes| - 1;
    assert forall j | 0 <= j < n :: nodes[..n][j] == nodes[j];
  }

  /** Both readings of a list fail together; the names they collect are the same, and they
      are those that occur in the list. */
  lemma {:induction false} ReadTogether(nodes: seq<Node>)
    requires AreItems(nodes)
    ensures ReadNodes(nodes).Some? <==> ReadEach(nodes).Some?
    ensures ReadNodes(nodes).Some? ==>
              && SameNames(ReadNodes(nodes).value.hash, ReadEach(nodes).value)
              && ReadNodes(nodes).value.nodes == LastLeaves(nodes)
              && forall name :: HasName(ReadNodes(nodes).value.hash, name) <==> Occurs(nodes, name)
  {
    if nodes != [] {
      hide ReadInterface, AddElement, SameNames, HasName, ReadsAsZero, NameOf, Occurs, FirstOfName;
      var n := |nodes| - 1;
      assert nodes[n] in nodes;
      ReadTogether(nodes[..n]);
      if ReadNodes(nodes[..n]).Some? {
        var stale := ReadNodes(nodes[..n]).value.nodes;
        OneElement(nodes[n], stale);
        if ReadNodes(nodes).Some? {
          SameNamesAdd(ReadNodes(nodes[..n]).value.hash, ReadEach(nodes[..n]).value,
            ReadInterface(nodes[n], stale).value, ReadInterface(nodes[n], NO_NODES).value);
          forall name
            ensures Occurs(nodes, name) <==> Occurs(nodes[..n], name) || NameOf(nodes[n]) == Some(name)
          {
            OccursNext(nodes, name);
          }
        }
      }
    } else {
      NothingRead();
    }
  }

  lemma {:induction false} ReadInStep(nodes: seq<Node>)
    requires AreItems(nodes) && ReadNodes(nodes).Some? && ReadEach(nodes).Some?
    ensures ReadNodes(nodes).value.hash == ReadEach(nodes).value <==> NothingLeftOver(nodes)
  {
    if nodes != [] {
      hide ReadInterface, AddElement, SameNames, HasName, ReadsAsZero, NameOf, Occurs, FirstOfName, NothingLeftOver,
        LastLeaves;
      var n := |nodes| - 1;
      assert nodes[n] in nodes;
      ReadInStep(nodes[..n]);
      ReadTogether(nodes[..n]);
      LeftOverNext(nodes);
      var stale := ReadNodes(nodes[..n]).value.nodes;
      var x, y := ReadInterface(nodes[n], stale).value, ReadInterface(nodes[n], NO_NODES).value;
      OneElement(nodes[n], stale);
      SameNamesAdd(ReadNodes(nodes[..n]).value.hash, ReadEach(nodes[..n]).value, x, y);
      OccursNext(nodes, x.name);
    }
  }

  lemma NothingRead()
    ensures SameNames([], []) && forall name :: !HasName([], name) && !Occurs([], name)
  {
  }

  lemma LeftOverNext(nodes: seq<Node>)
    requires nodes != []
    ensures var n := |nodes| - 1;
            NothingLeftOver(nodes) <==>
              NothingLeftOver(nodes[..n]) && (!HasIpv4(nodes[n]) && FirstOfName(nodes, n) ==>
                ReadsAsZero(LastLeaves(nodes[..n])))
  {
    hide ReadsAsZero, LastLeaves, HasIpv4, NameOf;
    var n := |nodes| - 1;
    forall k | 0 <= k < n
      ensures nodes[..n][k] == nodes[k] && nodes[..n][..k] == nodes[..k]
      ensures FirstOfName(nodes[..n], k) <==> FirstOfName(nodes, k)
    {
    }
  }

  /** The whole list is read interface by interface exactly when nothing is left over. */
  lemma StaleLeaves(nodes: seq<Node>)
    requires AreItems(nodes)
    ensures ReadNodes(nodes).Some? <==> ReadEach(nodes).Some?
    ensures ReadNodes(nodes).Some? ==>
            (ReadNodes(nodes).value.hash == ReadEach(nodes).value <==> NothingLeftOver(nodes))
  {
    ReadTogether(nodes);
    if ReadNodes(nodes).Some? {
      ReadInStep(nodes);
    }
  }

  /** An interface without an ipv4 container, behind one with IPv4 enabled, is read with
      IPv4 enabled. */
  lemma StaleLeavesExample()
    ensures var a := ListItem("interface",
            [Leaf("name", "a"), Leaf("type", "t"), Container("ipv4", [Leaf("enabled", "true")])]);
            var b := ListItem("interface", [Leaf("name", "b"), Leaf("type", "t")]);
            && !NothingLeftOver([a, b])
            && ReadNodes([a, b]).Some? && |ReadNodes([a, b]).value.hash| == 2
            && ReadNodes([a, b]).value.hash[1].name == "b" && ReadNodes([a, b]).value.hash[1].ipv4.enabled == 1
  {
    var ipv4 := [Leaf("enabled", "true")];
    var ac := [Leaf("name", "a"), Leaf("type", "t"), Container("ipv4", ipv4)];
    var bc := [Leaf("name", "b"), Leaf("type", "t")];
    var a, b := ListItem("interface", ac), ListItem("interface", bc);
    ExampleLookups();
    assert [a, b][..1] == [a] && [a][..0] == [];
    var i := Interface("a", "t", 0, Ipv4(1, 0, 0, [], []), Ipv6(0, 0, 0, [], []));
    hide ChildLeaf, ChildContainer, ChildList;
    assert ReadInterface(a, NO_NODES) == Some(i);
    assert ReadNodes([]) == Some(Reader([], NO_NODES)) && AddElement([], i) == [i];
    assert FindIpv4Nodes(ac, NO_NODES) == Ipv4Nodes(Some("true"), None, None);
    assert ReadNodes([a]) == Some(Reader([i], Ipv4Nodes(Some("true"), None, None)));
    assert ReadInterface(b, Ipv4Nodes(Some("true"), None, None)) == Some(i.(name := "b"));
    assert !HasIpv4(b) && FirstOfName([a, b], 1) && !ReadsAsZero(LastLeaves([a, b][..1]));
  }

  lemma ExampleLookups()
    ensures var ac := [Leaf("name", "a"), Leaf("type", "t"), Container("ipv4", [Leaf("enabled", "true")])];
            && ChildLeaf(ac, "name") == Some("a") && ChildLeaf(ac, "type") == Some("t")
              && ChildLeaf(ac, "enabled") == None
            && ChildContainer(ac, "ipv4") == Some([Leaf("enabled", "true")]) && ChildContainer(ac, "ipv6") == None
    ensures var v4 := [Leaf("enabled", "true")];
            && ChildLeaf(v4, "enabled") == Some("true") && ChildLeaf(v4, "forwarding") == None
              && ChildLeaf(v4, "mtu") == None
            && ChildList(v4, "address") == []
    ensures var bc := [Leaf("name", "b"), Leaf("type", "t")];
            && ChildLeaf(bc, "name") == Some("b") && ChildLeaf(bc, "type") == Some("t")
              && ChildLeaf(bc, "enabled") == None
            && ChildContainer(bc, "ipv4") == None && ChildContainer(bc, "ipv6") == None
    ensures "a" != "b"
  {
    var ac := [Leaf("name", "a"), Leaf("type", "t"), Container("ipv4", [Leaf("enabled", "true")])];
    var bc := [Leaf("name", "b"), Leaf("type", "t")];
    LeafAt(ac, "name", 0);
    LeafAt(ac, "type", 1);
    ContainerAt(ac, "ipv4", 2);
    LeafAt(bc, "name", 0);
    LeafAt(bc, "type", 1);
    assert "name"[0] == 'n' && "type"[0] == 't' && "enabled"[0] == 'e' && "forwarding"[0] == 'f' && "mtu"[0] == 'm';
    assert "ipv4"[3] == '4' && "ipv6"[3] == '6' && "a"[0] == 'a' && "b"[0] == 'b';
    NoLeaf(ac, "enabled");
    NoLeaf(bc, "enabled");
  }
}
