/** What the index built by routing_collect_routes promises about the flat cache. */
module RibIndexProperties {
  import opened Sequences
  import opened NextHops
  import opened Routes
  import opened RouteLists
  import opened RouteListHashes
  import opened RibLists
  import opened RoutingCommon

  /** The index before the selection loops, starting from an empty head. */
  function Gathered(cache: seq<KernelRoute>, names: Names): seq<RibView> {
    PlaceRoutes(CollectRibs([], cache, names), cache, names)
  }

  /** The final index. */
  function Index(cache: seq<KernelRoute>, names: Names): seq<RibView> {
    SelectInRibs(Gathered(cache, names))
  }

  datatype Key = Key(name: string, family: int, prefix: NlAddr)

  function KeyOf(route: KernelRoute, names: Names): Key {
    Key(names.table(route.table), route.family, route.dst)
  }

  function GroupRoutes(groups: seq<Group>, prefix: NlAddr): seq<RouteView> {
    var k := Find(groups, prefix);
    if k < |groups| then groups[k].routes else []
  }

  function RibGroups(ribs: seq<RibView>, name: string, family: int): seq<Group> {
    var k := FindRib(ribs, name, family);
    if k < |ribs| then ribs[k].groups else []
  }

  function Lookup(ribs: seq<RibView>, key: Key): seq<RouteView> {
    GroupRoutes(RibGroups(ribs, key.name, key.family), key.prefix)
  }

  /** Reference definition: the cache entries with this key, latest first. */
  function Arrivals(cache: seq<KernelRoute>, names: Names, key: Key): seq<RouteView> {
    if cache == [] then [] else
      var n := |cache| - 1;
      var earlier := Arrivals(cache[..n], names, key);
      if KeyOf(cache[n], names) == key then [RouteOf(cache[n], names)] + earlier else earlier
  }

  // ---- lookups ----

  lemma {:induction false} FindInAppended(groups: seq<Group>, group: Group, prefix: NlAddr)
    ensures Find(groups + [group], prefix) ==
            if Find(groups, prefix) < |groups| then Find(groups, prefix)
            else if group.prefix == prefix then |groups| else |groups| + 1
  {
    if groups != [] {
      assert (groups + [group])[0] == groups[0] && (groups + [group])[1..] == groups[1..] + [group];
      FindInAppended(groups[1..], group, prefix);
    }
  }

  lemma {:induction false} FindInUpdated(groups: seq<Group>, k: nat, routes: seq<RouteView>, prefix: NlAddr)
    requires k < |groups|
    ensures Find(groups[k := Group(groups[k].prefix, routes)], prefix) == Find(groups, prefix)
  {
    var updated := groups[k := Group(groups[k].prefix, routes)];
    if groups[0].prefix != prefix {
      if k == 0 {
        assert updated[1..] == groups[1..];
      } else {
        assert updated[1..] == groups[1..][k - 1 := Group(groups[1..][k - 1].prefix, routes)];
        FindInUpdated(groups[1..], k - 1, routes, prefix);
      }
    }
  }

  lemma AddedGroupRoutes(groups: seq<Group>, prefix: NlAddr, route: RouteView, asked: NlAddr)
    ensures GroupRoutes(AddToGroups(groups, prefix, route), asked) ==
            if asked == prefix then [route] + GroupRoutes(groups, asked) else GroupRoutes(groups, asked)
  {
    var k := Find(groups, prefix);
    if k < |groups| {
      FindInUpdated(groups, k, [route] + groups[k].routes, asked);
    } else {
      FindInAppended(groups, Group(prefix, [route]), asked);
    }
  }

  lemma PlacedGroups(ribs: seq<RibView>, route: KernelRoute, names: Names, name: string, family: int)
    requires RibIndex(ribs, route, names) < |ribs|
    ensures RibGroups(PlaceRoute(ribs, route, names), name, family) ==
            if names.table(route.table) == name && route.family == family
            then AddToGroups(RibGroups(ribs, name, family), route.dst, RouteOf(route, names))
            else RibGroups(ribs, name, family)
  {
    hide AddToGroups, RouteOf;
    SameKeysFind(ribs, PlaceRoute(ribs, route, names), name, family);
  }

  lemma PlacedLookup(ribs: seq<RibView>, route: KernelRoute, names: Names, key: Key)
    requires RibIndex(ribs, route, names) < |ribs|
    ensures Lookup(PlaceRoute(ribs, route, names), key) ==
            if KeyOf(route, names) == key then [RouteOf(route, names)] + Lookup(ribs, key) else Lookup(ribs, key)
  {
    hide AddToGroups, GroupRoutes, RouteOf, RibGroups;
    PlacedGroups(ribs, route, names, key.name, key.family);
    AddedGroupRoutes(RibGroups(ribs, key.name, key.family), route.dst, RouteOf(route, names), key.prefix);
  }

  lemma {:induction false} CollectedRibsEmpty(cache: seq<KernelRoute>, names: Names)
    ensures forall rib | rib in CollectRibs([], cache, names) :: rib.groups == []
  {
    if cache != [] {
      CollectedRibsEmpty(cache[..|cache| - 1], names);
    }
  }

  lemma {:induction false} PlacedArrivals(cache: seq<KernelRoute>, names: Names, n: nat, key: Key)
    requires n <= |cache|
    ensures Lookup(PlaceRoutes(CollectRibs([], cache, names), cache[..n], names), key) ==
            Arrivals(cache[..n], names, key)
  {
    hide PlaceRoute, RouteOf, CollectRib;
    var all := CollectRibs([], cache, names);
    if n == 0 {
      CollectedRibsEmpty(cache, names);
      assert cache[..0] == [];
    } else {
      PlacedArrivals(cache, names, n - 1, key);
      assert cache[..n][..n - 1] == cache[..n - 1];
      SecondPassFinds([], cache, names, n - 1, n - 1);
      PlacedLookup(PlaceRoutes(all, cache[..n - 1], names), cache[n - 1], names, key);
    }
  }

  /** The index refines the flat cache: behind every key stands exactly the
      reverse-arrival filter of the cache. */
  lemma GatheredIsFilter(cache: seq<KernelRoute>, names: Names, key: Key)
    ensures Lookup(Gathered(cache, names), key) == Arrivals(cache, names, key)
  {
    PlacedArrivals(cache, names, |cache|, key);
    assert cache[..|cache|] == cache;
  }

  lemma {:induction false} SelectedFind(groups: seq<Group>, prefix: NlAddr)
    ensures Find(SelectInGroups(groups), prefix) == Find(groups, prefix)
  {
    if groups != [] {
      assert SelectInGroups(groups)[1..] == SelectInGroups(groups[1..]);
      SelectedFind(groups[1..], prefix);
    }
  }

  /** The selection touches nothing but the marks, group by group. */
  lemma IndexLookup(cache: seq<KernelRoute>, names: Names, key: Key)
    ensures Lookup(Index(cache, names), key) == MarkPreferred(Arrivals(cache, names, key))
  {
    var ribs := Gathered(cache, names);
    GatheredIsFilter(cache, names, key);
    SameKeysFind(ribs, SelectInRibs(ribs), key.name, key.family);
    SelectedFind(RibGroups(ribs, key.name, key.family), key.prefix);
  }

  // ---- order and uniqueness of keys ----

  /** The distinct elements of a sequence in the order of their first occurrence. */
  function FirstSeen<T(==,!new)>(s: seq<T>): (r: seq<T>)
    ensures forall x :: x in r <==> x in s
    ensures Distinct(r)
  {
    if s == [] then [] else
      var n := |s| - 1;
      assert s == s[..n] + [s[n]];
      var earlier := FirstSeen(s[..n]);
      if s[n] in earlier then earlier else earlier + [s[n]]
  }

  lemma FirstSeenSnoc<T(!new)>(s: seq<T>, x: T)
    ensures FirstSeen(s + [x]) == if x in FirstSeen(s) then FirstSeen(s) else FirstSeen(s) + [x]
  {
    assert (s + [x])[..|s|] == s;
  }

  function RibKeys(ribs: seq<RibView>): (keys: seq<(string, int)>)
    ensures |keys| == |ribs|
    ensures forall i | 0 <= i < |ribs| :: keys[i] == (ribs[i].name, ribs[i].family)
  {
    seq(|ribs|, i requires 0 <= i < |ribs| => (ribs[i].name, ribs[i].family))
  }

  function CacheKeys(cache: seq<KernelRoute>, names: Names): (keys: seq<(string, int)>)
    ensures |keys| == |cache|
    ensures forall i | 0 <= i < |cache| :: keys[i] == (names.table(cache[i].table), cache[i].family)
  {
    seq(|cache|, i requires 0 <= i < |cache| => (names.table(cache[i].table), cache[i].family))
  }

  lemma FoundIffKey(ribs: seq<RibView>, name: string, family: int)
    ensures FindRib(ribs, name, family) < |ribs| <==> (name, family) in RibKeys(ribs)
  {
    var k := FindRib(ribs, name, family);
    if k < |ribs| {
      assert RibKeys(ribs)[k] == (name, family);
    }
  }

  lemma OneMoreKey(ribs: seq<RibView>, route: KernelRoute, names: Names)
    ensures var key := (names.table(route.table), route.family);
            RibKeys(CollectRib(ribs, route, names)) ==
            if key in RibKeys(ribs) then RibKeys(ribs) else RibKeys(ribs) + [key]
  {
    var name := names.table(route.table);
    FoundIffKey(ribs, name, route.family);
    assert RibKeys(CollectRib(ribs, route, names)) == RibKeys(AddRib(ribs, name, route.family));
  }

  lemma SeenNext(cache: seq<KernelRoute>, names: Names)
    requires cache != []
    ensures var n := |cache| - 1;
            var seen := FirstSeen(CacheKeys(cache[..n], names));
            var key := (names.table(cache[n].table), cache[n].family);
            FirstSeen(CacheKeys(cache, names)) == if key in seen then seen else seen + [key]
  {
    hide FirstSeen;
    var n := |cache| - 1;
    var key := (names.table(cache[n].table), cache[n].family);
    assert CacheKeys(cache, names) == CacheKeys(cache[..n], names) + [key];
    FirstSeenSnoc(CacheKeys(cache[..n], names), key);
  }

  lemma {:induction false} CollectedKeys(cache: seq<KernelRoute>, names: Names)
    ensures RibKeys(CollectRibs([], cache, names)) == FirstSeen(CacheKeys(cache, names))
  {
    if cache != [] {
      var n := |cache| - 1;
      var before := CollectRibs([], cache[..n], names);
      assert CollectRibs([], cache, names) == CollectRib(before, cache[n], names);
      hide *;
      CollectedKeys(cache[..n], names);
      OneMoreKey(before, cache[n], names);
      SeenNext(cache, names);
    }
  }

  /** RIBs stand in first-occurrence order of (table name, family), without duplicates. */
  lemma RibOrder(cache: seq<KernelRoute>, names: Names)
    ensures RibKeys(Index(cache, names)) == FirstSeen(CacheKeys(cache, names))
    ensures Distinct(RibKeys(Index(cache, names)))
  {
    var all := CollectRibs([], cache, names);
    PlaceKeepsKeys(all, cache, names);
    assert RibKeys(Index(cache, names)) == RibKeys(all);
    CollectedKeys(cache, names);
  }

  function Prefixes(groups: seq<Group>): (prefixes: seq<NlAddr>)
    ensures |prefixes| == |groups|
    ensures forall i | 0 <= i < |groups| :: prefixes[i] == groups[i].prefix
  {
    seq(|groups|, i requires 0 <= i < |groups| => groups[i].prefix)
  }

  /** Destinations of the cache entries of one RIB, in cache order. */
  function Destinations(cache: seq<KernelRoute>, names: Names, name: string, family: int): seq<NlAddr> {
    if cache == [] then [] else
      var n := |cache| - 1;
      var earlier := Destinations(cache[..n], names, name, family);
      if names.table(cache[n].table) == name && cache[n].family == family then earlier + [cache[n].dst] else earlier
  }

  lemma AddedPrefixes(groups: seq<Group>, prefix: NlAddr, route: RouteView)
    ensures Prefixes(AddToGroups(groups, prefix, route)) ==
            if prefix in Prefixes(groups) then Prefixes(groups) else Prefixes(groups) + [prefix]
  {
    var k := Find(groups, prefix);
    if k < |groups| {
      assert Prefixes(groups)[k] == prefix;
    }
  }

  lemma NoPrefixesYet(cache: seq<KernelRoute>, names: Names, name: string, family: int)
    ensures RibGroups(CollectRibs([], cache, names), name, family) == []
  {
    CollectedRibsEmpty(cache, names);
  }

  lemma DestinationsNext(cache: seq<KernelRoute>, names: Names, n: nat, name: string, family: int)
    requires n < |cache|
    ensures Destinations(cache[..n + 1], names, name, family) ==
            Destinations(cache[..n], names, name, family)
            + if names.table(cache[n].table) == name && cache[n].family == family then [cache[n].dst] else []
  {
    assert cache[..n + 1][..n] == cache[..n];
  }

  lemma {:induction false} PlacedPrefixes(cache: seq<KernelRoute>, names: Names, n: nat, name: string, family: int)
    requires n <= |cache|
    ensures Prefixes(RibGroups(PlaceRoutes(CollectRibs([], cache, names), cache[..n], names), name, family)) ==
            FirstSeen(Destinations(cache[..n], names, name, family))
  {
    hide AddToGroups, RouteOf, CollectRib, PlaceRoute, RibGroups, Find;
    var all := CollectRibs([], cache, names);
    if n == 0 {
      NoPrefixesYet(cache, names, name, family);
      assert cache[..0] == [];
    } else {
      hide Destinations, FirstSeen, Distinct;
      DestinationsNext(cache, names, n - 1, name, family);
      PlacedPrefixes(cache, names, n - 1, name, family);
      assert cache[..n][..n - 1] == cache[..n - 1];
      SecondPassFinds([], cache, names, n - 1, n - 1);
      var before := PlaceRoutes(all, cache[..n - 1], names);
      PlacedGroups(before, cache[n - 1], names, name, family);
      AddedPrefixes(RibGroups(before, name, family), cache[n - 1].dst, RouteOf(cache[n - 1], names));
      FirstSeenSnoc(Destinations(cache[..n - 1], names, name, family), cache[n - 1].dst);
    }
  }

  /** Within a RIB the prefixes stand in first-occurrence order, without duplicates. */
  lemma PrefixOrder(cache: seq<KernelRoute>, names: Names, name: string, family: int)
    ensures var prefixes := Prefixes(RibGroups(Index(cache, names), name, family));
            prefixes == FirstSeen(Destinations(cache, names, name, family)) && Distinct(prefixes)
  {
    var ribs := Gathered(cache, names);
    PlacedPrefixes(cache, names, |cache|, name, family);
    assert cache[..|cache|] == cache;
    SameKeysFind(ribs, SelectInRibs(ribs), name, family);
    assert Prefixes(RibGroups(Index(cache, names), name, family)) == Prefixes(RibGroups(ribs, name, family));
  }

  // ---- conservation of routes ----

  function GroupTotal(groups: seq<Group>): nat {
    if groups == [] then 0 else |groups[0].routes| + GroupTotal(groups[1..])
  }

  function Total(ribs: seq<RibView>): nat {
    if ribs == [] then 0 else GroupTotal(ribs[0].groups) + Total(ribs[1..])
  }

  lemma {:induction false} GroupTotalAdded(groups: seq<Group>, prefix: NlAddr, route: RouteView)
    ensures GroupTotal(AddToGroups(groups, prefix, route)) == GroupTotal(groups) + 1
  {
    if groups != [] {
      var added := AddToGroups(groups, prefix, route);
      if groups[0].prefix == prefix {
        assert added[1..] == groups[1..];
      } else {
        GroupTotalAdded(groups[1..], prefix, route);
        assert added[0] == groups[0] && added[1..] == AddToGroups(groups[1..], prefix, route);
      }
    }
  }

  lemma {:induction false} TotalUpdated(ribs: seq<RibView>, k: nat, groups: seq<Group>)
    requires k < |ribs|
    ensures Total(ribs[k := ribs[k].(groups := groups)]) ==
            Total(ribs) - GroupTotal(ribs[k].groups) + GroupTotal(groups)
  {
    var updated := ribs[k := ribs[k].(groups := groups)];
    if k == 0 {
      assert updated[1..] == ribs[1..];
    } else {
      TotalUpdated(ribs[1..], k - 1, groups);
      assert updated[1..] == ribs[1..][k - 1 := ribs[1..][k - 1].(groups := groups)];
    }
  }

  lemma {:induction false} TotalEmpty(ribs: seq<RibView>)
    requires forall rib | rib in ribs :: rib.groups == []
    ensures Total(ribs) == 0
  {
    if ribs != [] {
      TotalEmpty(ribs[1..]);
    }
  }

  lemma {:induction false} PlacedTotal(cache: seq<KernelRoute>, names: Names, n: nat)
    requires n <= |cache|
    ensures Total(PlaceRoutes(CollectRibs([], cache, names), cache[..n], names)) == n
  {
    hide AddToGroups, RouteOf, CollectRib;
    var all := CollectRibs([], cache, names);
    if n == 0 {
      CollectedRibsEmpty(cache, names);
      TotalEmpty(all);
    } else {
      PlacedTotal(cache, names, n - 1);
      assert cache[..n][..n - 1] == cache[..n - 1];
      SecondPassFinds([], cache, names, n - 1, n - 1);
      var before := PlaceRoutes(all, cache[..n - 1], names);
      var k := RibIndex(before, cache[n - 1], names);
      var route := RouteOf(cache[n - 1], names);
      GroupTotalAdded(before[k].groups, cache[n - 1].dst, route);
      TotalUpdated(before, k, AddToGroups(before[k].groups, cache[n - 1].dst, route));
    }
  }

  lemma {:induction false} SelectedGroupTotal(groups: seq<Group>)
    ensures GroupTotal(SelectInGroups(groups)) == GroupTotal(groups)
  {
    if groups != [] {
      assert SelectInGroups(groups)[1..] == SelectInGroups(groups[1..]);
      SelectedGroupTotal(groups[1..]);
    }
  }

  lemma {:induction false} SelectedTotal(ribs: seq<RibView>)
    ensures Total(SelectInRibs(ribs)) == Total(ribs)
  {
    if ribs != [] {
      assert SelectInRibs(ribs)[1..] == SelectInRibs(ribs[1..]);
      SelectedTotal(ribs[1..]);
      SelectedGroupTotal(ribs[0].groups);
    }
  }

  /** No cache entry is lost and none is stored twice. */
  lemma TotalIsCacheLength(cache: seq<KernelRoute>, names: Names)
    ensures Total(Index(cache, names)) == |cache|
  {
    PlacedTotal(cache, names, |cache|);
    assert cache[..|cache|] == cache;
    SelectedTotal(Gathered(cache, names));
  }

  // ---- the default mark ----

  lemma {:induction false} CollectedDefaults(cache: seq<KernelRoute>, names: Names)
    ensures forall rib | rib in CollectRibs([], cache, names) :: rib.isDefault <==> "main" <= rib.name
  {
    if cache != [] {
      CollectedDefaults(cache[..|cache| - 1], names);
      var before := CollectRibs([], cache[..|cache| - 1], names);
      var route := cache[|cache| - 1];
      CollectRibKeeps(before, route, names, names.table(route.table), route.family);
    }
  }

  /** A RIB is the default one exactly when its name starts with "main". */
  lemma DefaultIffMain(cache: seq<KernelRoute>, names: Names)
    ensures forall rib | rib in Index(cache, names) :: rib.isDefault <==> "main" <= rib.name
  {
    var all := CollectRibs([], cache, names);
    CollectedDefaults(cache, names);
    PlacedDefaults(all, cache, names);
    forall rib | rib in Index(cache, names)
      ensures rib.isDefault <==> "main" <= rib.name
    {
      var i :| 0 <= i < |Index(cache, names)| && Index(cache, names)[i] == rib;
      assert Gathered(cache, names)[i] in Gathered(cache, names);
    }
  }

  lemma {:induction false} PlacedDefaults(ribs: seq<RibView>, cache: seq<KernelRoute>, names: Names)
    requires forall rib | rib in ribs :: rib.isDefault <==> "main" <= rib.name
    ensures forall rib | rib in PlaceRoutes(ribs, cache, names) :: rib.isDefault <==> "main" <= rib.name
  {
    if cache != [] {
      PlacedDefaults(ribs, cache[..|cache| - 1], names);
    }
  }

  // ---- the active route ----

  /** How many cache entries have this key. */
  function Matching(cache: seq<KernelRoute>, names: Names, key: Key): nat {
    |Arrivals(cache, names, key)|
  }

  lemma {:induction false} ArrivalAt(cache: seq<KernelRoute>, names: Names, key: Key, j: nat)
    requires j < |cache| && KeyOf(cache[j], names) == key
    ensures Matching(cache[..j + 1], names, key) >= 1
    ensures var i := Matching(cache, names, key) - Matching(cache[..j + 1], names, key);
            && 0 <= i < Matching(cache, names, key)
            && Arrivals(cache, names, key)[i] == RouteOf(cache[j], names)
  {
    var n := |cache| - 1;
    if j == n {
      assert cache[..j + 1] == cache;
    } else {
      ArrivalAt(cache[..n], names, key, j);
      assert cache[..n][..j + 1] == cache[..j + 1];
    }
  }

  lemma {:induction false} ArrivalFrom(cache: seq<KernelRoute>, names: Names, key: Key, i: nat) returns (j: nat)
    requires i < Matching(cache, names, key)
    ensures j < |cache| && KeyOf(cache[j], names) == key && RouteOf(cache[j], names) == Arrivals(cache, names, key)[i]
    ensures i == Matching(cache, names, key) - Matching(cache[..j + 1], names, key)
  {
    var n := |cache| - 1;
    if KeyOf(cache[n], names) == key && i == 0 {
      j := n;
      assert cache[..j + 1] == cache;
    } else {
      j := ArrivalFrom(cache[..n], names, key, if KeyOf(cache[n], names) == key then i - 1 else i);
      assert cache[..n][..j + 1] == cache[..j + 1];
    }
  }

  /** Entry `j` is preferred: its metric is the least of its key, and every later entry
      of the key has a greater one. */
  ghost predicate IsWinner(cache: seq<KernelRoute>, names: Names, key: Key, j: nat) {
    && j < |cache| && KeyOf(cache[j], names) == key
    && forall m | 0 <= m < |cache| && KeyOf(cache[m], names) == key ::
         cache[j].priority <= cache[m].priority && (m > j ==> cache[j].priority < cache[m].priority)
  }

  lemma {:induction false} MatchingMonotone(cache: seq<KernelRoute>, names: Names, key: Key, a: nat, b: nat)
    requires a <= b <= |cache|
    ensures Matching(cache[..a], names, key) <= Matching(cache[..b], names, key)
  {
    if a < b {
      MatchingMonotone(cache, names, key, a, b - 1);
      assert cache[..b][..b - 1] == cache[..b - 1];
    }
  }

  /** Behind every key that occurs in the cache exactly one route is active: the copy of
      the winning entry, standing behind the copies of the later entries of its key. */
  lemma OneActiveRoute(cache: seq<KernelRoute>, names: Names, key: Key) returns (j: nat)
    requires exists m :: 0 <= m < |cache| && KeyOf(cache[m], names) == key
    ensures IsWinner(cache, names, key, j)
    ensures var group := Lookup(Index(cache, names), key);
            var at := Matching(cache, names, key) - Matching(cache[..j + 1], names, key);
            && |group| == Matching(cache, names, key) && 0 <= at < |group|
            && group[at] == RouteOf(cache[j], names).(active := true)
            && forall i | 0 <= i < |group| :: group[i].active <==> i == at
  {
    hide Arrivals, MarkPreferred, Lookup, Index, RouteOf, Preferred;
    var m :| 0 <= m < |cache| && KeyOf(cache[m], names) == key;
    ArrivalAt(cache, names, key, m);
    IndexLookup(cache, names, key);
    var arrivals := Arrivals(cache, names, key);
    var k := Preferred(arrivals);
    j := ArrivalFrom(cache, names, key, k);
    WinnerOf(cache, names, key, j);
    MarkedAt(cache, names, key);
  }

  lemma MarkedAt(cache: seq<KernelRoute>, names: Names, key: Key)
    requires Arrivals(cache, names, key) != []
    ensures var arrivals := Arrivals(cache, names, key);
            var marked := MarkPreferred(arrivals);
            var k := Preferred(arrivals);
            && |marked| == |arrivals| && marked[k] == arrivals[k].(active := true)
            && forall i | 0 <= i < |marked| :: marked[i].active <==> i == k
  {
    var arrivals := Arrivals(cache, names, key);
    forall i | 0 <= i < |arrivals|
      ensures !arrivals[i].active
    {
      var m := ArrivalFrom(cache, names, key, i);
    }
  }

  lemma WinnerOf(cache: seq<KernelRoute>, names: Names, key: Key, j: nat)
    requires j < |cache| && KeyOf(cache[j], names) == key && Arrivals(cache, names, key) != []
    requires Preferred(Arrivals(cache, names, key)) ==
            Matching(cache, names, key) - Matching(cache[..j + 1], names, key)
    ensures IsWinner(cache, names, key, j)
  {
    hide Arrivals, Preferred;
    var arrivals := Arrivals(cache, names, key);
    var k := Preferred(arrivals);
    ArrivalAt(cache, names, key, j);
    forall m | 0 <= m < |cache| && KeyOf(cache[m], names) == key
      ensures cache[j].priority <= cache[m].priority && (m > j ==> cache[j].priority < cache[m].priority)
    {
      ArrivalAt(cache, names, key, m);
      var i := Matching(cache, names, key) - Matching(cache[..m + 1], names, key);
      assert arrivals[i].preference == cache[m].priority;
      if m > j {
        MatchingLess(cache, names, key, j, m);
        assert i < k;
      }
    }
  }

  lemma MatchingLess(cache: seq<KernelRoute>, names: Names, key: Key, j: nat, m: nat)
    requires j < m < |cache| && KeyOf(cache[m], names) == key
    ensures Matching(cache[..j + 1], names, key) < Matching(cache[..m + 1], names, key)
  {
    MatchingMonotone(cache, names, key, j + 1, m);
    assert cache[..m + 1][..m] == cache[..m];
  }

  // ---- the same, group by group ----

  lemma {:induction false} FindDistinct(ribs: seq<RibView>, k: nat)
    requires k < |ribs| && Distinct(RibKeys(ribs))
    ensures FindRib(ribs, ribs[k].name, ribs[k].family) == k
  {
    forall i | 0 <= i < k
      ensures ribs[i].name != ribs[k].name || ribs[i].family != ribs[k].family
    {
      assert RibKeys(ribs)[i] != RibKeys(ribs)[k];
    }
  }

  lemma {:induction false} FindGroupDistinct(groups: seq<Group>, g: nat)
    requires g < |groups| && Distinct(Prefixes(groups))
    ensures Find(groups, groups[g].prefix) == g
  {
    forall i | 0 <= i < g
      ensures groups[i].prefix != groups[g].prefix
    {
      assert Prefixes(groups)[i] != Prefixes(groups)[g];
    }
  }

  /** Every group of the index is what its key looks up. */
  lemma GroupIsLookup(cache: seq<KernelRoute>, names: Names, k: nat, g: nat)
    requires k < |Index(cache, names)| && g < |Index(cache, names)[k].groups|
    ensures var rib := Index(cache, names)[k];
            Lookup(Index(cache, names), Key(rib.name, rib.family, rib.groups[g].prefix)) == rib.groups[g].routes
  {
    hide Index;
    var ribs := Index(cache, names);
    RibOrder(cache, names);
    FindDistinct(ribs, k);
    PrefixOrder(cache, names, ribs[k].name, ribs[k].family);
    FindGroupDistinct(ribs[k].groups, g);
  }

  lemma {:induction false} DestinationArrives(cache: seq<KernelRoute>, names: Names, key: Key)
    requires key.prefix in Destinations(cache, names, key.name, key.family)
    ensures exists m :: 0 <= m < |cache| && KeyOf(cache[m], names) == key
  {
    var n := |cache| - 1;
    if KeyOf(cache[n], names) != key {
      DestinationArrives(cache[..n], names, key);
      var m :| 0 <= m < n && KeyOf(cache[..n][m], names) == key;
      assert KeyOf(cache[m], names) == key;
    }
  }

  /** No group without an entry of the cache behind it. */
  lemma GroupArrives(cache: seq<KernelRoute>, names: Names, k: nat, g: nat)
    requires k < |Index(cache, names)| && g < |Index(cache, names)[k].groups|
    ensures var rib := Index(cache, names)[k];
            exists m :: 0 <= m < |cache| && KeyOf(cache[m], names) == Key(rib.name, rib.family, rib.groups[g].prefix)
  {
    hide Index, FindRib, Distinct, KeyOf;
    var rib := Index(cache, names)[k];
    var key := Key(rib.name, rib.family, rib.groups[g].prefix);
    RibOrder(cache, names);
    FindDistinct(Index(cache, names), k);
    PrefixOrder(cache, names, key.name, key.family);
    assert Prefixes(rib.groups)[g] == key.prefix;
    DestinationArrives(cache, names, key);
  }

  /** Every prefix group of every RIB stands for an entry of the cache and has exactly one
      active route: the copy of the winning entry of its key. */
  lemma EveryGroupHasOneActive(cache: seq<KernelRoute>, names: Names, k: nat, g: nat) returns (j: nat, at: nat)
    requires k < |Index(cache, names)| && g < |Index(cache, names)[k].groups|
    ensures var rib := Index(cache, names)[k];
            var group := rib.groups[g];
            && IsWinner(cache, names, Key(rib.name, rib.family, group.prefix), j)
            && at < |group.routes| && group.routes[at] == RouteOf(cache[j], names).(active := true)
            && forall i | 0 <= i < |group.routes| :: group.routes[i].active <==> i == at
  {
    hide Index, RouteOf, Lookup, Matching, KeyOf;
    var rib := Index(cache, names)[k];
    var key := Key(rib.name, rib.family, rib.groups[g].prefix);
    GroupIsLookup(cache, names, k, g);
    GroupArrives(cache, names, k, g);
    j := OneActiveRoute(cache, names, key);
    at := Matching(cache, names, key) - Matching(cache[..j + 1], names, key);
  }
}
