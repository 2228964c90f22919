/** The higher-layer-if and lower-layer-if walks of
    src/interfaces/src/plugin/subscription/operational.c. */
module MasterWalks {
  import opened Wrappers
  import opened Sequences

  /** One link of the libnl cache; master 0 means that it has none. */
  datatype Link = Link(ifindex: int, name: string, master: int)

  type LinkCache = seq<Link>

  /** rtnl_link_get */
  function Get(cache: LinkCache, ifindex: int): (r: Option<Link>)
    ensures r.Some? ==> r.value in cache && r.value.ifindex == ifindex
  {
    if cache == [] then None
    else if cache[0].ifindex == ifindex then Some(cache[0])
    else Get(cache[1..], ifindex)
  }

  lemma {:induction false} GetIff(cache: LinkCache, ifindex: int)
    ensures Get(cache, ifindex).Some? <==> exists link | link in cache :: link.ifindex == ifindex
  {
    if cache != [] && cache[0].ifindex != ifindex {
      GetIff(cache[1..], ifindex);
      assert cache == [cache[0]] + cache[1..];
    }
  }

  /** Following masters from index `m` meets `n` links and then index 0. */
  ghost predicate Ends(cache: LinkCache, m: int, n: nat)
    decreases n
  {
    if n == 0 then m == 0
    else m != 0 && Get(cache, m).Some? && Ends(cache, Get(cache, m).value.master, n - 1)
  }

  /** The links met on the way. */
  ghost function Chain(cache: LinkCache, m: int, n: nat): (r: seq<Link>)
    requires Ends(cache, m, n)
    ensures |r| == n
    decreases n
  {
    if n == 0 then [] else
      var link := Get(cache, m).value;
      [link] + Chain(cache, link.master, n - 1)
  }

  ghost function Names(links: seq<Link>): (r: seq<string>)
    ensures |r| == |links| && forall i | 0 <= i < |r| :: r[i] == links[i].name
  {
    seq(|links|, i requires 0 <= i < |links| => links[i].name)
  }

  /** The walk upwards. `n` bounds it; without such a bound the source does not return. */
  method HigherLayerIf(cache: LinkCache, link: Link, ghost n: nat) returns (higher: seq<string>)
    requires Ends(cache, link.master, n)
    ensures higher == Names(Chain(cache, link.master, n))
  {
    higher := [];
    var masterIfIndex := link.master;
    ghost var left := n;
    while masterIfIndex != 0
      invariant Ends(cache, masterIfIndex, left)
      invariant higher + Names(Chain(cache, masterIfIndex, left)) == Names(Chain(cache, link.master, n))
      decreases left
    {
      var masterLink := Get(cache, masterIfIndex).value;
      ghost var rest := Chain(cache, masterLink.master, left - 1);
      assert Names([masterLink] + rest) == [masterLink.name] + Names(rest);
      higher := higher + [masterLink.name];
      masterIfIndex := masterLink.master;
      left := left - 1;
    }
  }

  // ---- the ancestor relation, defined step by step ----

  /** The `k`-th ancestor of a link, counting from 1. */
  function Ancestor(cache: LinkCache, link: Link, k: nat): Option<Link>
    requires k > 0
  {
    if k == 1 then
      if link.master == 0 then None else Get(cache, link.master)
    else
      match Ancestor(cache, link, k - 1)
      case None => None
      case Some(a) => if a.master == 0 then None else Get(cache, a.master)
  }

  lemma {:induction false} AncestorOfMaster(cache: LinkCache, link: Link, k: nat)
    requires k > 1 && link.master != 0 && Get(cache, link.master).Some?
    ensures Ancestor(cache, link, k) == Ancestor(cache, Get(cache, link.master).value, k - 1)
  {
    if k > 2 {
      AncestorOfMaster(cache, link, k - 1);
    }
  }

  /** The walk emits exactly the ancestors, nearest first, and all of them. */
  lemma {:induction false} ChainIsAncestors(cache: LinkCache, link: Link, n: nat)
    requires Ends(cache, link.master, n)
    ensures forall i | 0 <= i < n :: Ancestor(cache, link, i + 1) == Some(Chain(cache, link.master, n)[i])
    ensures Ancestor(cache, link, n + 1) == None
    decreases n
  {
    if n > 0 {
      var next := Get(cache, link.master).value;
      ChainIsAncestors(cache, next, n - 1);
      AncestorOfMaster(cache, link, n + 1);
      forall i | 0 <= i < n
        ensures Ancestor(cache, link, i + 1) == Some(Chain(cache, link.master, n)[i])
      {
        if i > 0 {
          AncestorOfMaster(cache, link, i + 1);
          assert Ancestor(cache, next, (i - 1) + 1) == Some(Chain(cache, next.master, n - 1)[i - 1]);
        }
      }
    }
  }

  // ---- when walks end ----

  /** Every master is in the cache. */
  ghost predicate Closed(cache: LinkCache) {
    forall link | link in cache && link.master != 0 :: Get(cache, link.master).Some?
  }

  /** No link is its own ancestor. */
  ghost predicate Acyclic(cache: LinkCache) {
    forall link, k: nat | link in cache && k > 0 :: Ancestor(cache, link, k) != Some(link)
  }

  lemma {:induction false} AncestorsCompose(cache: LinkCache, link: Link, a: nat, b: nat)
    requires a > 0 && b > 0 && Ancestor(cache, link, a).Some?
    ensures Ancestor(cache, link, a + b) == Ancestor(cache, Ancestor(cache, link, a).value, b)
    decreases b
  {
    if b > 1 {
      AncestorsCompose(cache, link, a, b - 1);
    }
  }

  predicate IsMaster(cache: LinkCache, link: Link, master: Link) {
    link.master != 0 && Get(cache, link.master) == Some(master)
  }

  /** Each link of a path is the master of the one before it. */
  ghost predicate IsPath(cache: LinkCache, path: seq<Link>) {
    && (forall link | link in path :: link in cache)
    && forall i, j | 0 <= i && j == i + 1 && j < |path| :: IsMaster(cache, path[i], path[j])
  }

  lemma {:induction false} PathAncestor(cache: LinkCache, path: seq<Link>, i: nat, j: nat)
    requires IsPath(cache, path) && i < j < |path|
    ensures Ancestor(cache, path[i], j - i) == Some(path[j])
    decreases j
  {
    var k := j - 1;
    assert IsMaster(cache, path[k], path[j]);
    if j > i + 1 {
      PathAncestor(cache, path, i, k);
    }
  }

  /** A path of an acyclic cache never meets a link twice, so it cannot outgrow the cache. */
  lemma PathFits(cache: LinkCache, path: seq<Link>)
    requires Acyclic(cache) && IsPath(cache, path)
    ensures |path| <= |cache|
  {
    forall i, j | 0 <= i < j < |path|
      ensures path[i] != path[j]
    {
      PathAncestor(cache, path, i, j);
      assert path[i] in path;
    }
    Pigeonhole(path, cache);
  }

  lemma {:induction false} PathEnds(cache: LinkCache, path: seq<Link>) returns (n: nat)
    requires Closed(cache) && Acyclic(cache) && IsPath(cache, path) && path != [] && |path| <= |cache|
    ensures Ends(cache, path[|path| - 1].master, n) && n + |path| <= |cache|
    decreases |cache| - |path|
  {
    var last := path[|path| - 1];
    if last.master == 0 {
      n := 0;
    } else {
      assert last in path;
      var longer := path + [Get(cache, last.master).value];
      forall i, j | 0 <= i && j == i + 1 && j < |longer|
        ensures IsMaster(cache, longer[i], longer[j])
      {
        if j < |path| {
          assert IsMaster(cache, path[i], path[j]);
        }
      }
      PathFits(cache, longer);
      var m := PathEnds(cache, longer);
      n := m + 1;
    }
  }

  ghost predicate WalkEnds(cache: LinkCache, link: Link) {
    exists n: nat :: Ends(cache, link.master, n)
  }

  ghost predicate WalkEndsWithin(cache: LinkCache, link: Link, bound: nat) {
    exists n: nat :: n < bound && Ends(cache, link.master, n)
  }

  /** In a closed cache the walks from all links end, each within fewer steps than there are
      links, exactly when no link is its own ancestor. */
  lemma WalksEnd(cache: LinkCache)
    requires Closed(cache)
    ensures Acyclic(cache) <==> forall link | link in cache :: WalkEnds(cache, link)
    ensures Acyclic(cache) <==> forall link | link in cache :: WalkEndsWithin(cache, link, |cache|)
  {
    if Acyclic(cache) {
      forall link | link in cache
        ensures WalkEnds(cache, link) && WalkEndsWithin(cache, link, |cache|)
      {
        var n := PathEnds(cache, [link]);
      }
    }
    if !Acyclic(cache) {
      var link, k: nat :| link in cache && k > 0 && Ancestor(cache, link, k) == Some(link);
      forall n: nat
        ensures !Ends(cache, link.master, n)
      {
        CycleNeverEnds(cache, link, k, n);
      }
      assert !WalkEnds(cache, link) && !WalkEndsWithin(cache, link, |cache|);
    }
  }

  lemma CycleNeverEnds(cache: LinkCache, link: Link, k: nat, n: nat)
    requires k > 0 && Ancestor(cache, link, k) == Some(link)
    ensures !Ends(cache, link.master, n)
  {
    var j := k;
    while j <= n
      invariant j > 0 && Ancestor(cache, link, j) == Some(link)
    {
      AncestorsCompose(cache, link, j, k);
      j := j + k;
    }
    if Ends(cache, link.master, n) {
      ChainIsAncestors(cache, link, n);
      NoneBeyond(cache, link, n + 1, j);
    }
  }

  // ---- the walk downwards ----

  ghost predicate Unique(cache: LinkCache) {
    forall i, j | 0 <= i < j < |cache| :: cache[i].name != cache[j].name && cache[i].ifindex != cache[j].ifindex
  }

  ghost predicate HasName(links: seq<Link>, name: string) {
    exists l | l in links :: l.name == name
  }

  /** The lower-layer loop as written: for every link of the cache it walks upwards from
      `link` itself, looking for the name of `link`. */
  method LowerLayerIf(cache: LinkCache, link: Link, ghost n: nat) returns (lower: seq<string>)
    requires Ends(cache, link.master, n)
    ensures lower == if HasName(Chain(cache, link.master, n), link.name) then Names(cache) else []
  {
    hide HasName;
    HasNameNone(link.name);
    lower := [];
    for i := 0 to |cache|
      invariant lower == if HasName(Chain(cache, link.master, n), link.name) then Names(cache[..i]) else []
    {
      var found := false;
      var masterIfIndex := link.master;
      ghost var left := n;
      while masterIfIndex != 0
        invariant Ends(cache, masterIfIndex, left)
        invariant HasName(Chain(cache, link.master, n), link.name) <==>
                HasName(Chain(cache, masterIfIndex, left), link.name)
        invariant !found
        decreases left
      {
        var masterLink := Get(cache, masterIfIndex).value;
        HasNameCons(masterLink, Chain(cache, masterLink.master, left - 1), link.name);
        if masterLink.name == link.name {
          found := true;
          break;
        }
        masterIfIndex := masterLink.master;
        left := left - 1;
      }
      if found {
        lower := lower + [cache[i].name];
      }
    }
    assert cache[..|cache|] == cache;
  }

  lemma HasNameNone(name: string)
    ensures !HasName([], name)
  {
  }

  lemma HasNameCons(head: Link, rest: seq<Link>, name: string)
    ensures HasName([head] + rest, name) <==> head.name == name || HasName(rest, name)
  {
    assert head in [head] + rest;
    assert forall l | l in rest :: l in [head] + rest;
  }

  lemma {:induction false} EndsOnce(cache: LinkCache, m: int, n: nat, k: nat)
    requires Ends(cache, m, n) && Ends(cache, m, k)
    ensures n == k
    decreases n
  {
    if n > 0 {
      EndsOnce(cache, Get(cache, m).value.master, n - 1, k - 1);
    }
  }

  lemma {:induction false} EndsFrom(cache: LinkCache, m: int, n: nat, i: nat)
    requires Ends(cache, m, n) && i < n
    ensures Chain(cache, m, n)[i] in cache
    ensures Ends(cache, Chain(cache, m, n)[i].master, n - 1 - i)
    decreases n
  {
    if i > 0 {
      EndsFrom(cache, Get(cache, m).value.master, n - 1, i - 1);
    }
  }

  /** With unique names a walk that ends never meets the name it started from. */
  lemma NoNamesake(cache: LinkCache, link: Link, n: nat)
    requires Unique(cache) && link in cache && Ends(cache, link.master, n)
    ensures !HasName(Chain(cache, link.master, n), link.name)
  {
    var chain := Chain(cache, link.master, n);
    forall i | 0 <= i < n
      ensures chain[i].name != link.name
    {
      EndsFrom(cache, link.master, n, i);
      if chain[i].name == link.name {
        assert chain[i] == link;
        EndsOnce(cache, link.master, n, n - 1 - i);
      }
    }
  }

  /** What the comment in the source describes: links that have `link` as an ancestor. */
  ghost predicate Below(cache: LinkCache, lower: Link, link: Link) {
    exists k: nat :: k > 0 && Ancestor(cache, lower, k) == Some(link)
  }

  ghost predicate EmitsConverse(cache: LinkCache, link: Link, emitted: seq<string>) {
    forall l | l in cache :: l.name in emitted <==> Below(cache, l, link)
  }

  /** Something lies below a link exactly when some link names it as its master. */
  lemma BelowIffMaster(cache: LinkCache, link: Link)
    requires Unique(cache) && link in cache
    ensures (exists l | l in cache :: Below(cache, l, link)) <==>
            exists l | l in cache :: l.master != 0 && l.master == link.ifindex
  {
    if l :| l in cache && l.master != 0 && l.master == link.ifindex {
      GetUnique(cache, link);
      assert Ancestor(cache, l, 1) == Some(link);
      assert Below(cache, l, link);
    }
    if l :| l in cache && Below(cache, l, link) {
      var k: nat :| k > 0 && Ancestor(cache, l, k) == Some(link);
      if k == 1 {
        assert l.master == link.ifindex;
      } else {
        var a := Ancestor(cache, l, k - 1).value;
        assert a.master != 0 && a.master == link.ifindex;
        AncestorInCache(cache, l, k - 1);
      }
    }
  }

  lemma AncestorInCache(cache: LinkCache, link: Link, k: nat)
    requires k > 0 && Ancestor(cache, link, k).Some?
    ensures Ancestor(cache, link, k).value in cache
  {
  }

  lemma {:induction false} GetUnique(cache: LinkCache, link: Link)
    requires Unique(cache) && link in cache
    ensures Get(cache, link.ifindex) == Some(link)
  {
    if cache[0] != link {
      var i :| 0 <= i < |cache| && cache[i] == link;
      GetUnique(cache[1..], link);
    }
  }

  /** With unique names the loop as written emits nothing; that is the converse of the
      ancestor relation exactly when no link has the queried one as its master. */
  lemma LowerLayerAsWritten(cache: LinkCache, link: Link, n: nat)
    requires Unique(cache) && link in cache && Ends(cache, link.master, n)
    ensures var emitted := if HasName(Chain(cache, link.master, n), link.name) then Names(cache) else [];
            && emitted == []
            && (EmitsConverse(cache, link, emitted) <==>
              forall l | l in cache :: l.master == 0 || l.master != link.ifindex)
  {
    NoNamesake(cache, link, n);
    BelowIffMaster(cache, link);
  }

  /** Starting at the iterated link instead would give the converse: a link's chain holds
      the name of `link` exactly when `link` is one of its ancestors. */
  lemma IntendedStart(cache: LinkCache, lower: Link, link: Link, n: nat)
    requires Unique(cache) && link in cache && Ends(cache, lower.master, n)
    ensures HasName(Chain(cache, lower.master, n), link.name) <==> Below(cache, lower, link)
  {
    var chain := Chain(cache, lower.master, n);
    ChainIsAncestors(cache, lower, n);
    if HasName(chain, link.name) {
      var i :| 0 <= i < n && chain[i].name == link.name;
      EndsFrom(cache, lower.master, n, i);
      assert chain[i] == link;
      assert Ancestor(cache, lower, i + 1) == Some(link);
    }
    if Below(cache, lower, link) {
      var k: nat :| k > 0 && Ancestor(cache, lower, k) == Some(link);
      if k > n {
        NoneBeyond(cache, lower, n + 1, k);
      }
      assert chain[k - 1] == link;
    }
  }

  /** What the loop would emit for the first `count` links if it started at each of them. */
  ghost function RepairedEmission(cache: LinkCache, link: Link, count: nat): seq<string>
    requires count <= |cache| && forall l | l in cache :: WalkEnds(cache, l)
  {
    if count == 0 then [] else
      var l := cache[count - 1];
      assert WalkEnds(cache, l);
      var n: nat :| Ends(cache, l.master, n);
      RepairedEmission(cache, link, count - 1) + if HasName(Chain(cache, l.master, n), link.name) then [l.name] else []
  }

  lemma {:induction false} RepairedNames(cache: LinkCache, link: Link, count: nat)
    requires Unique(cache) && link in cache && count <= |cache|
    requires forall l | l in cache :: WalkEnds(cache, l)
    ensures forall i | 0 <= i < |cache| ::
              cache[i].name in RepairedEmission(cache, link, count) <==> i < count && Below(cache, cache[i], link)
  {
    hide Below, HasName;
    if count > 0 {
      RepairedNames(cache, link, count - 1);
      var l := cache[count - 1];
      assert WalkEnds(cache, l);
      var n: nat :| Ends(cache, l.master, n) &&
        RepairedEmission(cache, link, count) ==
        RepairedEmission(cache, link, count - 1) +
        if HasName(Chain(cache, l.master, n), link.name) then [l.name] else [];
      IntendedStart(cache, l, link, n);
    }
  }

  /** On every closed acyclic cache with unique names the repaired loop emits exactly the
      links that have the queried one as an ancestor. */
  lemma RepairedEmitsConverse(cache: LinkCache, link: Link)
    requires Unique(cache) && Closed(cache) && Acyclic(cache) && link in cache
    ensures forall l | l in cache :: WalkEnds(cache, l)
    ensures EmitsConverse(cache, link, RepairedEmission(cache, link, |cache|))
  {
    WalksEnd(cache);
    RepairedNames(cache, link, |cache|);
    hide Below;
    forall l | l in cache
      ensures l.name in RepairedEmission(cache, link, |cache|) <==> Below(cache, l, link)
    {
      var i :| 0 <= i < |cache| && cache[i] == l;
    }
  }

  lemma {:induction false} NoneBeyond(cache: LinkCache, link: Link, a: nat, b: nat)
    requires 0 < a <= b && Ancestor(cache, link, a) == None
    ensures Ancestor(cache, link, b) == None
  {
    if a < b {
      NoneBeyond(cache, link, a, b - 1);
    }
  }

  /** A bridge with one port: the port lies below the bridge, yet the loop as written
      emits nothing for the bridge. */
  lemma BridgeExample()
    ensures var port, bridge := Link(1, "eth0", 2), Link(2, "br0", 0);
            var cache := [port, bridge];
            && Unique(cache) && Ends(cache, bridge.master, 0)
            && Below(cache, port, bridge)
            && !EmitsConverse(cache, bridge, [])
  {
    var port, bridge := Link(1, "eth0", 2), Link(2, "br0", 0);
    var cache := [port, bridge];
    assert "eth0"[0] == 'e' && "br0"[0] == 'b';
    assert cache[1..] == [bridge] && Get([bridge], 2) == Some(bridge);
    assert Ancestor(cache, port, 1) == Some(bridge);
    assert port in cache;
  }
}
