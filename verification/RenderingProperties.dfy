/** What the emitted route entries promise about the flat kernel cache. */
module RenderingProperties {
  import opened Wrappers
  import opened NextHops
  import opened Routes
  import opened RouteLists
  import opened RouteListHashes
  import opened RibLists
  import opened RoutingCommon
  import opened RibIndexProperties
  import opened RouteRendering

  // ---- one entry per cache route ----

  lemma {:induction false} GroupTotalSnoc(groups: seq<Group>)
    requires groups != []
    ensures GroupTotal(groups) == GroupTotal(groups[..|groups| - 1]) + |groups[|groups| - 1].routes|
  {
    var n := |groups| - 1;
    if n > 0 {
      GroupTotalSnoc(groups[1..]);
      assert groups[..n][1..] == groups[1..][..n - 1];
    }
  }

  lemma {:induction false} TotalSnoc(ribs: seq<RibView>)
    requires ribs != []
    ensures Total(ribs) == Total(ribs[..|ribs| - 1]) + GroupTotal(ribs[|ribs| - 1].groups)
  {
    var n := |ribs| - 1;
    if n > 0 {
      TotalSnoc(ribs[1..]);
      assert ribs[..n][1..] == ribs[1..][..n - 1];
    }
  }

  lemma {:induction false} GroupsEntryCount(name: string, family: int, groups: seq<Group>, modules: Modules,
      names: Names)
    ensures |GroupsEntries(name, family, groups, modules, names)| == GroupTotal(groups)
  {
    if groups != [] {
      GroupsEntryCount(name, family, groups[..|groups| - 1], modules, names);
      GroupTotalSnoc(groups);
    }
  }

  lemma {:induction false} EntryCount(ribs: seq<RibView>, modules: Modules, names: Names)
    ensures |Entries(ribs, modules, names)| == Total(ribs)
  {
    if ribs != [] {
      var last := ribs[|ribs| - 1];
      EntryCount(ribs[..|ribs| - 1], modules, names);
      GroupsEntryCount(last.name, last.family, last.groups, modules, names);
      TotalSnoc(ribs);
    }
  }

  /** As many entries as cache routes. */
  lemma OneEntryPerRoute(cache: seq<KernelRoute>, names: Names, modules: Modules)
    ensures |Entries(Index(cache, names), modules, names)| == |cache|
  {
    EntryCount(Index(cache, names), modules, names);
    TotalIsCacheLength(cache, names);
  }

  lemma MarkKeeps(view: seq<RouteView>, i: nat)
    requires i < |view|
    ensures |MarkPreferred(view)| == |view|
    ensures MarkPreferred(view)[i] == view[i].(active := MarkPreferred(view)[i].active)
  {
  }

  // ---- paths ----

  lemma FamilyNames(family: int)
    ensures |FamilyName(family)| == 4 && FamilyName(family)[3] == (if family == AF_INET then '4' else '6')
  {
  }

  /** Two RIBs share a path exactly when they share their name and are both IPv4 or both
      not; so for the two IP families the path determines name and family. */
  lemma SamePathIff(name1: string, family1: int, name2: string, family2: int)
    ensures RibPath(name1, family1) == RibPath(name2, family2) <==>
              name1 == name2 && (family1 == AF_INET <==> family2 == AF_INET)
    ensures family1 in {AF_INET, AF_INET6} && family2 in {AF_INET, AF_INET6} ==>
              (RibPath(name1, family1) == RibPath(name2, family2) <==> name1 == name2 && family1 == family2)
  {
    FamilyNames(family1);
    FamilyNames(family2);
    assert (family1 == AF_INET <==> family2 == AF_INET) ==> FamilyName(family1) == FamilyName(family2);
    hide FamilyName;
    var head := RIB_LIST_PATH + "[name='";
    var tail := "']/routes";
    var middle1, middle2 := FamilyName(family1) + "-" + name1, FamilyName(family2) + "-" + name2;
    assert RibPath(name1, family1) == head + middle1 + tail;
    assert RibPath(name2, family2) == head + middle2 + tail;
    if RibPath(name1, family1) == RibPath(name2, family2) {
      MiddleEqual(head, middle1, middle2, tail);
      assert middle1[3] == FamilyName(family1)[3] && middle2[3] == FamilyName(family2)[3];
      assert middle1[5..] == name1 && middle2[5..] == name2;
    }
  }

  lemma MiddleEqual(head: string, a: string, b: string, tail: string)
    requires head + a + tail == head + b + tail
    ensures a == b
  {
    assert |a| == |b|;
    assert (head + a + tail)[|head|..|head| + |a|] == a;
    assert (head + b + tail)[|head|..|head| + |b|] == b;
  }

  // ---- when the callback fails ----

  /** What a caller can see in the cache: an ordinary route with several next hops. */
  predicate Multipath(route: KernelRoute) {
    route.routeType !in {RTN_LOCAL, RTN_BLACKHOLE, RTN_UNREACHABLE, RTN_PROHIBIT} && |route.hops| >= 2
  }

  lemma MultipathIsList(route: KernelRoute, names: Names)
    ensures IsListHop(RouteOf(route, names).hop) <==> Multipath(route)
  {
  }

  /** The callback fails exactly when the cache holds a route with several next hops. */
  lemma FailsIffMultipath(cache: seq<KernelRoute>, names: Names)
    ensures RibsHaveList(Index(cache, names)) <==> exists j | 0 <= j < |cache| :: Multipath(cache[j])
  {
    hide Index, RouteOf, Lookup, Arrivals, MarkPreferred;
    var ribs := Index(cache, names);
    if RibsHaveList(ribs) {
      var k, g, i := ListPosition(ribs);
      var key := Key(ribs[k].name, ribs[k].family, ribs[k].groups[g].prefix);
      GroupIsLookup(cache, names, k, g);
      IndexLookup(cache, names, key);
      var arrivals := Arrivals(cache, names, key);
      MarkLength(arrivals);
      MarkKeeps(arrivals, i);
      var j := ArrivalFrom(cache, names, key, i);
      MultipathIsList(cache[j], names);
    }
    if exists j | 0 <= j < |cache| :: Multipath(cache[j]) {
      var j :| 0 <= j < |cache| && Multipath(cache[j]);
      ListRouteFound(cache, names, j);
    }
  }

  lemma MarkLength(view: seq<RouteView>)
    ensures |MarkPreferred(view)| == |view|
  {
  }

  lemma ListPosition(ribs: seq<RibView>) returns (k: nat, g: nat, i: nat)
    requires RibsHaveList(ribs)
    ensures k < |ribs| && g < |ribs[k].groups| && i < |ribs[k].groups[g].routes|
    ensures IsListHop(ribs[k].groups[g].routes[i].hop)
  {
    k :| 0 <= k < |ribs| && GroupsHaveList(ribs[k].groups);
    g :| 0 <= g < |ribs[k].groups| && GroupHasList(ribs[k].groups[g]);
    i :| 0 <= i < |ribs[k].groups[g].routes| && IsListHop(ribs[k].groups[g].routes[i].hop);
  }

  lemma ListRouteFound(cache: seq<KernelRoute>, names: Names, j: nat)
    requires j < |cache| && Multipath(cache[j])
    ensures RibsHaveList(Index(cache, names))
  {
    hide Index, RouteOf, Arrivals;
    var key := KeyOf(cache[j], names);
    var ribs := Index(cache, names);
    ArrivalAt(cache, names, key, j);
    IndexLookup(cache, names, key);
    MultipathIsList(cache[j], names);
    var arrivals := Arrivals(cache, names, key);
    var i := |arrivals| - Matching(cache[..j + 1], names, key);
    MarkKeeps(arrivals, i);
    var k := FindRib(ribs, key.name, key.family);
    var g := Find(ribs[k].groups, key.prefix);
    assert ribs[k].groups[g].routes[i] in ribs[k].groups[g].routes;
    assert ribs[k].groups[g] in ribs[k].groups;
    assert ribs[k] in ribs;
  }

  /** A single multipath route makes the whole callback fail. */
  lemma MultipathExample(names: Names)
    ensures var hop := KernelHop(1, None);
            RibsHaveList(Index([KernelRoute(254, AF_INET, 1, 0, RTPROT_STATIC, NlAddr("10.0.0.0/8", 8), [hop, hop])],
              names))
  {
    var hop := KernelHop(1, None);
    var cache := [KernelRoute(254, AF_INET, 1, 0, RTPROT_STATIC, NlAddr("10.0.0.0/8", 8), [hop, hop])];
    ListRouteFound(cache, names, 0);
  }
}
