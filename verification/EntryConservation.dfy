/** The emitted entries are the cache routes: one entry each, marked active exactly for the
    winning route of its key. */
module EntryConservation {
  import opened NextHops
  import opened Routes
  import opened RouteLists
  import opened RouteListHashes
  import opened RibLists
  import opened RoutingCommon
  import opened RibIndexProperties
  import opened RenderingProperties
  import opened RouteRendering

  /** A stored route with its key and its arrival number within the key. */
  datatype Tag = Tag(key: Key, arrival: nat, route: RouteView)

  function GroupTags(name: string, family: int, group: Group): (r: seq<Tag>)
    ensures |r| == |group.routes|
    ensures forall i | 0 <= i < |r| ::
              r[i] == Tag(Key(name, family, group.prefix), |group.routes| - 1 - i, group.routes[i])
  {
    seq(|group.routes|, i requires 0 <= i < |group.routes| =>
      Tag(Key(name, family, group.prefix), |group.routes| - 1 - i, group.routes[i]))
  }

  function GroupsTags(name: string, family: int, groups: seq<Group>): seq<Tag> {
    if groups == [] then []
    else GroupsTags(name, family, groups[..|groups| - 1]) + GroupTags(name, family, groups[|groups| - 1])
  }

  function Tags(ribs: seq<RibView>): seq<Tag> {
    if ribs == [] then [] else
      var last := ribs[|ribs| - 1];
      Tags(ribs[..|ribs| - 1]) + GroupsTags(last.name, last.family, last.groups)
  }

  /** The tags of the first `n` cache entries. */
  function CacheTags(cache: seq<KernelRoute>, names: Names, n: nat): (r: seq<Tag>)
    requires n <= |cache|
    ensures |r| == n
    ensures forall j | 0 <= j < n :: r[j] == TagOf(cache, names, j)
  {
    if n == 0 then [] else CacheTags(cache, names, n - 1) + [TagOf(cache, names, n - 1)]
  }

  function TagOf(cache: seq<KernelRoute>, names: Names, j: nat): Tag
    requires j < |cache|
  {
    var key := KeyOf(cache[j], names);
    Tag(key, Matching(cache[..j], names, key), RouteOf(cache[j], names))
  }

  // ---- every placed route adds its own tag ----

  lemma PrependedTags(name: string, family: int, prefix: NlAddr, route: RouteView, routes: seq<RouteView>)
    ensures GroupTags(name, family, Group(prefix, [route] + routes)) ==
            [Tag(Key(name, family, prefix), |routes|, route)] + GroupTags(name, family, Group(prefix, routes))
  {
  }

  lemma {:induction false} TagsAdded(name: string, family: int, groups: seq<Group>, prefix: NlAddr, route: RouteView)
    ensures multiset(GroupsTags(name, family, AddToGroups(groups, prefix, route))) ==
            multiset(GroupsTags(name, family, groups))
            + multiset{Tag(Key(name, family, prefix), |GroupRoutes(groups, prefix)|, route)}
  {
    var added := AddToGroups(groups, prefix, route);
    var k := Find(groups, prefix);
    if k == |groups| {
      assert added[..|groups|] == groups;
      PrependedTags(name, family, prefix, route, []);
      assert [route] + [] == [route];
    } else {
      var n := |groups| - 1;
      assert groups == groups[..n] + [groups[n]];
      FindInAppended(groups[..n], groups[n], prefix);
      if k == n {
        assert added[..n] == groups[..n];
        PrependedTags(name, family, prefix, route, groups[n].routes);
      } else {
        TagsAdded(name, family, groups[..n], prefix, route);
        assert added[..n] == AddToGroups(groups[..n], prefix, route);
      }
    }
  }

  /** Changing the groups of one RIB exchanges one stretch of the tags. */
  lemma {:induction false} TagsUpdated(ribs: seq<RibView>, k: nat, groups: seq<Group>)
      returns (left: seq<Tag>, right: seq<Tag>)
    requires k < |ribs|
    ensures Tags(ribs) == left + GroupsTags(ribs[k].name, ribs[k].family, ribs[k].groups) + right
    ensures Tags(ribs[k := ribs[k].(groups := groups)]) ==
            left + GroupsTags(ribs[k].name, ribs[k].family, groups) + right
  {
    hide GroupsTags;
    var n := |ribs| - 1;
    var updated := ribs[k := ribs[k].(groups := groups)];
    if k == n {
      assert updated[..n] == ribs[..n];
      left, right := Tags(ribs[..n]), [];
    } else {
      var middle;
      left, middle := TagsUpdated(ribs[..n], k, groups);
      assert updated[..n] == ribs[..n][k := ribs[k].(groups := groups)];
      right := middle + GroupsTags(ribs[n].name, ribs[n].family, ribs[n].groups);
    }
  }

  lemma {:induction false} NoTags(ribs: seq<RibView>)
    requires forall rib | rib in ribs :: rib.groups == []
    ensures Tags(ribs) == []
  {
    if ribs != [] {
      assert ribs[|ribs| - 1] in ribs;
      NoTags(ribs[..|ribs| - 1]);
    }
  }

  lemma PlacedTag(ribs: seq<RibView>, route: KernelRoute, names: Names)
    requires RibIndex(ribs, route, names) < |ribs|
    ensures var key := KeyOf(route, names);
            multiset(Tags(PlaceRoute(ribs, route, names))) ==
            multiset(Tags(ribs)) + multiset{Tag(key, |Lookup(ribs, key)|, RouteOf(route, names))}
  {
    hide AddToGroups, GroupRoutes, RouteOf, GroupsTags, Tags;
    var k := RibIndex(ribs, route, names);
    var groups := AddToGroups(ribs[k].groups, route.dst, RouteOf(route, names));
    var left, right := TagsUpdated(ribs, k, groups);
    TagsAdded(ribs[k].name, ribs[k].family, ribs[k].groups, route.dst, RouteOf(route, names));
    assert |Lookup(ribs, KeyOf(route, names))| == |GroupRoutes(ribs[k].groups, route.dst)|;
  }

  lemma {:induction false} PlacedTags(cache: seq<KernelRoute>, names: Names, n: nat)
    requires n <= |cache|
    ensures multiset(Tags(PlaceRoutes(CollectRibs([], cache, names), cache[..n], names))) ==
            multiset(CacheTags(cache, names, n))
  {
    hide PlaceRoute, CollectRib, RouteOf, Lookup, Tags, Arrivals;
    var all := CollectRibs([], cache, names);
    if n == 0 {
      CollectedRibsEmpty(cache, names);
      NoTags(all);
      assert cache[..0] == [];
    } else {
      var key := KeyOf(cache[n - 1], names);
      PlacedTags(cache, names, n - 1);
      assert cache[..n][..n - 1] == cache[..n - 1];
      SecondPassFinds([], cache, names, n - 1, n - 1);
      PlacedTag(PlaceRoutes(all, cache[..n - 1], names), cache[n - 1], names);
      PlacedArrivals(cache, names, n - 1, key);
      ArrivalsLength(cache[..n - 1], names, key);
    }
  }

  lemma {:induction false} ArrivalsLength(cache: seq<KernelRoute>, names: Names, key: Key)
    ensures |Arrivals(cache, names, key)| == Matching(cache, names, key)
  {
    if cache != [] {
      ArrivalsLength(cache[..|cache| - 1], names, key);
    }
  }

  // ---- an entry for every tag ----

  type Choice = (Key, nat) -> bool

  function TagEntry(tag: Tag, active: Choice, modules: Modules, names: Names): Entry {
    EntryOf(tag.key.name, tag.key.family, tag.key.prefix, tag.route.(active := active(tag.key, tag.arrival)),
      modules, names)
  }

  function TagEntries(tags: seq<Tag>, active: Choice, modules: Modules, names: Names): (r: seq<Entry>)
    ensures |r| == |tags|
    ensures forall i | 0 <= i < |r| :: r[i] == TagEntry(tags[i], active, modules, names)
  {
    seq(|tags|, i requires 0 <= i < |tags| => TagEntry(tags[i], active, modules, names))
  }

  lemma Without<T>(s: seq<T>, k: nat)
    requires k < |s|
    ensures multiset(s) == multiset(s[..k] + s[k + 1..]) + multiset{s[k]}
  {
    assert s == s[..k] + [s[k]] + s[k + 1..];
  }

  lemma TagEntriesWithout(tags: seq<Tag>, k: nat, active: Choice, modules: Modules, names: Names)
    requires k < |tags|
    ensures multiset(TagEntries(tags, active, modules, names)) ==
            multiset(TagEntries(tags[..k] + tags[k + 1..], active, modules, names))
              + multiset{TagEntry(tags[k], active, modules, names)}
  {
    hide TagEntry;
    var entries := TagEntries(tags, active, modules, names);
    Without(entries, k);
    assert TagEntries(tags[..k] + tags[k + 1..], active, modules, names) == entries[..k] + entries[k + 1..];
  }

  /** An element of both may be taken from both. */
  lemma SameWithout<T>(a: seq<T>, b: seq<T>) returns (k: nat)
    requires multiset(a) == multiset(b) && a != []
    ensures k < |b| && b[k] == a[0]
    ensures multiset(a[..0] + a[1..]) == multiset(b[..k] + b[k + 1..])
  {
    assert a[0] in multiset(b);
    k :| 0 <= k < |b| && b[k] == a[0];
    Without(a, 0);
    Without(b, k);
    var x, y := multiset(a[..0] + a[1..]), multiset(b[..k] + b[k + 1..]);
    assert x == multiset(a) - multiset{a[0]} && y == multiset(b) - multiset{a[0]};
  }

  lemma {:induction false} PermutedEntries(a: seq<Tag>, b: seq<Tag>, active: Choice, modules: Modules, names: Names)
    requires multiset(a) == multiset(b)
    ensures multiset(TagEntries(a, active, modules, names)) == multiset(TagEntries(b, active, modules, names))
    decreases |a|
  {
    hide TagEntry, TagEntries;
    if a == [] {
      assert |multiset(b)| == |b|;
      assert a == b;
    } else {
      var k := SameWithout(a, b);
      TagEntriesWithout(a, 0, active, modules, names);
      TagEntriesWithout(b, k, active, modules, names);
      PermutedEntries(a[..0] + a[1..], b[..k] + b[k + 1..], active, modules, names);
    }
  }

  /** The marks of a group are the chosen ones. */
  ghost predicate MarksAs(name: string, family: int, group: Group, active: Choice) {
    forall i | 0 <= i < |group.routes| ::
      && |MarkPreferred(group.routes)| == |group.routes|
      && MarkPreferred(group.routes)[i] ==
         group.routes[i].(active := active(Key(name, family, group.prefix), |group.routes| - 1 - i))
  }

  lemma GroupEntriesAreTags(name: string, family: int, group: Group, active: Choice, modules: Modules, names: Names)
    requires MarksAs(name, family, group, active)
    ensures |MarkPreferred(group.routes)| == |group.routes|
    ensures GroupEntries(name, family, Group(group.prefix, MarkPreferred(group.routes)), modules, names) ==
            TagEntries(GroupTags(name, family, group), active, modules, names)
  {
    hide EntryOf;
    MarkLength(group.routes);
  }

  lemma TagEntriesAppend(a: seq<Tag>, b: seq<Tag>, active: Choice, modules: Modules, names: Names)
    ensures TagEntries(a + b, active, modules, names) ==
            TagEntries(a, active, modules, names) + TagEntries(b, active, modules, names)
  {
    hide TagEntry;
  }

  lemma {:induction false} GroupsEntriesAreTags(name: string, family: int, groups: seq<Group>, active: Choice,
      modules: Modules, names: Names)
    requires forall g | g in groups :: MarksAs(name, family, g, active)
    ensures GroupsEntries(name, family, SelectInGroups(groups), modules, names) ==
            TagEntries(GroupsTags(name, family, groups), active, modules, names)
  {
    hide GroupEntries, GroupTags, TagEntries, MarksAs, MarkPreferred;
    if groups == [] {
      assert TagEntries([], active, modules, names) == [];
    } else {
      var n := |groups| - 1;
      assert groups[n] in groups;
      GroupsEntriesAreTags(name, family, groups[..n], active, modules, names);
      GroupEntriesAreTags(name, family, groups[n], active, modules, names);
      assert SelectInGroups(groups)[..n] == SelectInGroups(groups[..n]);
      TagEntriesAppend(GroupsTags(name, family, groups[..n]), GroupTags(name, family, groups[n]), active, modules,
        names);
    }
  }

  lemma {:induction false} EntriesAreTags(ribs: seq<RibView>, active: Choice, modules: Modules, names: Names)
    requires forall rib | rib in ribs :: forall g | g in rib.groups :: MarksAs(rib.name, rib.family, g, active)
    ensures Entries(SelectInRibs(ribs), modules, names) == TagEntries(Tags(ribs), active, modules, names)
  {
    hide GroupsEntries, GroupsTags, TagEntries, MarksAs, SelectInGroups;
    if ribs == [] {
      assert TagEntries([], active, modules, names) == [];
    } else {
      var n := |ribs| - 1;
      var last := ribs[n];
      assert last in ribs;
      EntriesAreTags(ribs[..n], active, modules, names);
      GroupsEntriesAreTags(last.name, last.family, last.groups, active, modules, names);
      assert SelectInRibs(ribs)[..n] == SelectInRibs(ribs[..n]);
      TagEntriesAppend(Tags(ribs[..n]), GroupsTags(last.name, last.family, last.groups), active, modules, names);
    }
  }

  // ---- the marks, read off the cache ----

  /** The marked arrival of a key. */
  function MarkOf(cache: seq<KernelRoute>, names: Names): Choice {
    (key, arrival) =>
      var arrivals := Arrivals(cache, names, key);
      arrivals != [] && arrival == |arrivals| - 1 - Preferred(arrivals)
  }

  lemma GatheredGroup(cache: seq<KernelRoute>, names: Names, k: nat, g: nat)
    requires k < |Gathered(cache, names)| && g < |Gathered(cache, names)[k].groups|
    ensures var rib := Gathered(cache, names)[k];
            rib.groups[g].routes == Arrivals(cache, names, Key(rib.name, rib.family, rib.groups[g].prefix))
  {
    hide Gathered, Arrivals;
    var ribs := Gathered(cache, names);
    var rib := ribs[k];
    var index := Index(cache, names);
    RibOrder(cache, names);
    assert RibKeys(index) == RibKeys(ribs);
    FindDistinct(ribs, k);
    PrefixOrder(cache, names, rib.name, rib.family);
    FindDistinct(index, k);
    assert Prefixes(index[k].groups) == Prefixes(rib.groups);
    FindGroupDistinct(rib.groups, g);
    GatheredIsFilter(cache, names, Key(rib.name, rib.family, rib.groups[g].prefix));
  }

  lemma GroupMarks(cache: seq<KernelRoute>, names: Names, name: string, family: int, group: Group)
    requires group.routes == Arrivals(cache, names, Key(name, family, group.prefix))
    ensures MarksAs(name, family, group, MarkOf(cache, names))
  {
    hide Arrivals, MarkPreferred, Preferred;
    var key := Key(name, family, group.prefix);
    MarkLength(group.routes);
    forall i | 0 <= i < |group.routes|
      ensures MarkPreferred(group.routes)[i] ==
              group.routes[i].(active := MarkOf(cache, names)(key, |group.routes| - 1 - i))
    {
      MarkedAt(cache, names, key);
      MarkKeeps(group.routes, i);
    }
  }

  lemma OneMoreMatching(cache: seq<KernelRoute>, names: Names, j: nat)
    requires j < |cache|
    ensures var key := KeyOf(cache[j], names);
            Matching(cache[..j + 1], names, key) == Matching(cache[..j], names, key) + 1
  {
    assert cache[..j + 1][..j] == cache[..j];
  }

  /** The marked arrival is that of the winner. */
  lemma MarkIsWinner(cache: seq<KernelRoute>, names: Names, j: nat)
    requires j < |cache|
    ensures var key := KeyOf(cache[j], names);
            MarkOf(cache, names)(key, Matching(cache[..j], names, key)) <==> IsWinner(cache, names, key, j)
  {
    var key := KeyOf(cache[j], names);
    hide Arrivals, KeyOf, Preferred, Matching;
    ArrivalAt(cache, names, key, j);
    ArrivalsLength(cache, names, key);
    OneMoreMatching(cache, names, j);
    var k := Preferred(Arrivals(cache, names, key));
    var w := ArrivalFrom(cache, names, key, k);
    WinnerOf(cache, names, key, w);
    if w < j {
      MatchingLess(cache, names, key, w, j);
    } else if j < w {
      MatchingLess(cache, names, key, j, w);
    }
  }

  /** The entry of a cache route: its RIB's path, its own destination and data, and marked
      active exactly if it is the winner of its key. */
  ghost function RouteEntry(cache: seq<KernelRoute>, names: Names, modules: Modules, j: nat): Entry
    requires j < |cache|
  {
    var r := cache[j];
    EntryOf(names.table(r.table), r.family, r.dst,
      RouteOf(r, names).(active := IsWinner(cache, names, KeyOf(r, names), j)), modules, names)
  }

  ghost function RouteEntries(cache: seq<KernelRoute>, names: Names, modules: Modules): (r: seq<Entry>)
    ensures |r| == |cache| && forall j | 0 <= j < |r| :: r[j] == RouteEntry(cache, names, modules, j)
  {
    seq(|cache|, j requires 0 <= j < |cache| => RouteEntry(cache, names, modules, j))
  }

  /** The emitted entries are, as a multiset, exactly one entry for each cache route. */
  lemma EntriesAreRoutes(cache: seq<KernelRoute>, names: Names, modules: Modules)
    ensures multiset(Entries(Index(cache, names), modules, names)) == multiset(RouteEntries(cache, names, modules))
  {
    hide Entries, Tags, TagEntry, EntryOf, Arrivals, RouteOf, MarksAs;
    var ribs := Gathered(cache, names);
    var active := MarkOf(cache, names);
    forall rib, group | rib in ribs && group in rib.groups
      ensures MarksAs(rib.name, rib.family, group, active)
    {
      var k :| 0 <= k < |ribs| && ribs[k] == rib;
      var g :| 0 <= g < |rib.groups| && rib.groups[g] == group;
      GatheredGroup(cache, names, k, g);
      GroupMarks(cache, names, rib.name, rib.family, group);
    }
    EntriesAreTags(ribs, active, modules, names);
    PlacedTags(cache, names, |cache|);
    assert cache[..|cache|] == cache;
    var tags := CacheTags(cache, names, |cache|);
    PermutedEntries(Tags(ribs), tags, active, modules, names);
    forall j | 0 <= j < |cache|
      ensures TagEntry(tags[j], active, modules, names) == RouteEntry(cache, names, modules, j)
    {
      MarkIsWinner(cache, names, j);
      TagIsRoute(cache, names, modules, j, active);
    }
    assert TagEntries(tags, active, modules, names) == RouteEntries(cache, names, modules);
  }

  lemma TagIsRoute(cache: seq<KernelRoute>, names: Names, modules: Modules, j: nat, active: Choice)
    requires j < |cache|
    requires var key := KeyOf(cache[j], names);
             active(key, Matching(cache[..j], names, key)) <==> IsWinner(cache, names, key, j)
    ensures TagEntry(TagOf(cache, names, j), active, modules, names) == RouteEntry(cache, names, modules, j)
  {
    hide EntryOf, RouteOf, IsWinner;
  }

  /** Every cache route has its entry among the emitted ones. */
  lemma EveryRouteHasEntry(cache: seq<KernelRoute>, names: Names, modules: Modules, j: nat)
    requires j < |cache|
    ensures RouteEntry(cache, names, modules, j) in Entries(Index(cache, names), modules, names)
  {
    hide Entries, RouteEntry, Index;
    EntriesAreRoutes(cache, names, modules);
    assert RouteEntries(cache, names, modules)[j] in multiset(RouteEntries(cache, names, modules));
  }
}
