/** What the routes of the index and the emitted entries say about their cache entries, field
    by field. */
module RouteContents {
  import opened Wrappers
  import opened Decimals
  import opened NextHops
  import opened Routes
  import opened RouteLists
  import opened RibLists
  import opened RoutingCommon
  import opened RibIndexProperties
  import opened RouteRendering
  import opened EntryConservation

  // ---- the stored routes ----

  ghost predicate TellsHop(hop: SimpleHop, from: KernelHop, names: Names) {
    hop.addr == from.gateway && hop.ifindex == from.ifindex && hop.ifName == Some(names.link(from.ifindex))
  }

  /** Blackhole, unreachable, prohibit and local routes carry that word, whatever hops they
      have; the others carry all hops in order, a single one without a list. */
  ghost predicate TellsHops(hop: HopView, route: KernelRoute, names: Names) {
    && (route.routeType == 6 ==> hop == SpecialView(Some("blackhole")))
    && (route.routeType == 7 ==> hop == SpecialView(Some("unreachable")))
    && (route.routeType == 8 ==> hop == SpecialView(Some("prohibit")))
    && (route.routeType == 2 ==> hop == SpecialView(Some("local")))
    && (route.routeType !in {2, 6, 7, 8} ==>
          && (|route.hops| == 0 ==> hop.NoHop?)
          && (|route.hops| == 1 ==> hop.SimpleView? && TellsHop(hop.simple, route.hops[0], names))
          && (|route.hops| >= 2 ==>
                && hop.ListView? && |hop.hops| == |route.hops|
                && forall i | 0 <= i < |route.hops| :: TellsHop(hop.hops[i], route.hops[i], names)))
  }

  ghost predicate Tells(view: RouteView, route: KernelRoute, names: Names) {
    && view.preference == route.priority && view.lastUpdated.None? && view.description.None?
    && (route.protocol == 4 ==> view.sourceProtocol == Some("ietf-routing:static"))
    && (route.protocol != 4 ==> view.sourceProtocol == Some("ietf-routing:direct"))
    && TellsHops(view.hop, route, names)
  }

  lemma RouteTells(route: KernelRoute, names: Names)
    ensures Tells(RouteOf(route, names), route, names)
  {
  }

  /** How many later entries of the cache have the key of entry `j`. */
  function LaterOnes(cache: seq<KernelRoute>, names: Names, j: nat): nat
    requires j < |cache|
  {
    if j == |cache| - 1 then 0 else
      var last := cache[|cache| - 1];
      LaterOnes(cache[..|cache| - 1], names, j)
      + if names.table(last.table) == names.table(cache[j].table) && last.family == cache[j].family
           && last.dst == cache[j].dst then 1 else 0
  }

  lemma {:induction false} LaterMatching(cache: seq<KernelRoute>, names: Names, j: nat)
    requires j < |cache|
    ensures var key := KeyOf(cache[j], names);
            LaterOnes(cache, names, j) == Matching(cache, names, key) - Matching(cache[..j + 1], names, key)
  {
    var n := |cache| - 1;
    if j == n {
      assert cache[..j + 1] == cache;
    } else {
      LaterMatching(cache[..n], names, j);
      assert cache[..n][..j + 1] == cache[..j + 1];
    }
  }

  /** Every cache entry is stored behind its own table name, family and destination, as many
      places from the front as later entries have the same ones, and with its own contents;
      its mark says whether it is the preferred one. */
  lemma StoredRoute(cache: seq<KernelRoute>, names: Names, j: nat)
    requires j < |cache|
    ensures var r := cache[j];
            var key := Key(names.table(r.table), r.family, r.dst);
            var stored := Lookup(Index(cache, names), key);
            var at := LaterOnes(cache, names, j);
            && at < |stored| && Tells(stored[at], r, names)
            && (stored[at].active <==> IsWinner(cache, names, key, j))
  {
    hide Arrivals, MarkPreferred, Lookup, Index, RouteOf, Preferred, Tells, IsWinner, LaterOnes;
    var key := KeyOf(cache[j], names);
    LaterMatching(cache, names, j);
    ArrivalAt(cache, names, key, j);
    IndexLookup(cache, names, key);
    RouteTells(cache[j], names);
    var w := OneActiveRoute(cache, names, key);
    MarkedTells(Arrivals(cache, names, key), LaterOnes(cache, names, j), cache[j], names);
    WinnerAt(cache, names, key, w, j);
  }

  lemma MarkedTells(arrivals: seq<RouteView>, i: nat, route: KernelRoute, names: Names)
    requires i < |arrivals| && Tells(arrivals[i], route, names)
    ensures |MarkPreferred(arrivals)| == |arrivals| && Tells(MarkPreferred(arrivals)[i], route, names)
  {
    hide TellsHops;
  }

  lemma WinnerAt(cache: seq<KernelRoute>, names: Names, key: Key, w: nat, j: nat)
    requires IsWinner(cache, names, key, w) && j < |cache| && KeyOf(cache[j], names) == key
    ensures IsWinner(cache, names, key, j) <==>
            Matching(cache[..j + 1], names, key) == Matching(cache[..w + 1], names, key)
  {
    hide Matching;
    if w < j {
      MatchingLess(cache, names, key, w, j);
    } else if j < w {
      MatchingLess(cache, names, key, j, w);
    }
  }

  // ---- the emitted entries ----

  /** The unicast-routing module of this family is there to carry addresses. */
  predicate ModulePresent(family: int, modules: Modules) {
    (family == 2 && modules.v4) || (family == 10 && modules.v6)
  }

  ghost predicate ShowsHop(entry: HopEntry, from: KernelHop, family: int, modules: Modules, names: Names) {
    && entry.outgoingInterface == names.link(from.ifindex)
    && (entry.nextHopAddress.Some? <==> from.gateway.Some? && ModulePresent(family, modules))
    && (entry.nextHopAddress.Some? ==> entry.nextHopAddress.value == from.gateway.value.text)
  }

  ghost predicate ShowsHops(hops: seq<HopEntry>, route: KernelRoute, modules: Modules, names: Names) {
    if route.routeType in {2, 6, 7, 8} then hops == [] else
      && |hops| == |route.hops|
      && forall i | 0 <= i < |hops| :: ShowsHop(hops[i], route.hops[i], route.family, modules, names)
  }

  /** The default destination is spelled out by family; any other text with a slash is shown
      as it is, and one without gets a slash and its length in decimal. */
  ghost predicate ShowsPrefix(text: string, dst: NlAddr, family: int) {
    if (dst.text == "none" && dst.prefixLen == 0) || dst.text == "none/" || dst.text == "none/0" then
      && (family == 2 ==> text == "0.0.0.0/0")
      && (family != 2 ==> text == "::/0")
    else if '/' in dst.text then
      text == dst.text
    else
      && |text| > |dst.text| + 1 && text[..|dst.text|] == dst.text && text[|dst.text|] == '/'
      && Spells(text[|dst.text| + 1..], dst.prefixLen)
  }

  ghost predicate Shows(e: Entry, route: KernelRoute, modules: Modules, names: Names) {
    && e.path == "/ietf-routing:routing/ribs/rib[name='" + (if route.family == 2 then "ipv4-" else "ipv6-")
                 + names.table(route.table) + "']/routes"
    && Spells(e.preference, route.priority)
    && (route.protocol == 4 ==> e.sourceProtocol == Some("ietf-routing:static"))
    && (route.protocol != 4 ==> e.sourceProtocol == Some("ietf-routing:direct"))
    && ShowsHops(e.hops, route, modules, names)
    && (e.destinationPrefix.Some? <==> ModulePresent(route.family, modules))
    && (e.destinationPrefix.Some? ==> ShowsPrefix(e.destinationPrefix.value, route.dst, route.family))
  }

  lemma PathShown(name: string, family: int)
    ensures RibPath(name, family) ==
            "/ietf-routing:routing/ribs/rib[name='" + (if family == 2 then "ipv4-" else "ipv6-") + name + "']/routes"
  {
    var prefix := "/ietf-routing:routing/ribs/rib" + "[name='";
    assert prefix == "/ietf-routing:routing/ribs/rib[name='";
    assert "ipv4" + "-" == "ipv4-" && "ipv6" + "-" == "ipv6-";
    var dashed := if family == 2 then "ipv4-" else "ipv6-";
    assert RibPath(name, family) == prefix + dashed + name + "']/routes";
  }

  lemma NoneSlash(text: string, digits: string)
    requires '/' !in text && digits != []
    ensures text + "/" + digits <= "none/0" <==> text == "none" && digits == "0"
  {
    var all := text + "/" + digits;
    assert all[|text|] == '/' && forall i | 0 <= i < |text| :: all[i] == text[i];
    if all <= "none/0" {
      assert forall i | 0 <= i < |all| :: all[i] == "none/0"[i];
      assert "none/0"[4] == '/' && "none/0"[0] == 'n' && "none/0"[1] == 'o' && "none/0"[2] == 'n' && "none/0"[3] == 'e';
      assert |text| == 4;
      assert all[..4] == text && all[5..] == digits;
    }
  }

  lemma OnlyZero(n: nat)
    ensures Print(n) == "0" <==> n == 0
  {
    PrintSpells(n);
    assert Shift(n, 1) == n / 10;
  }

  lemma PrefixShown(dst: NlAddr, family: int)
    ensures ShowsPrefix(Rewritten(PrefixText(dst), family), dst, family)
  {
    hide Print, Spells;
    PrintSpells(dst.prefixLen);
    OnlyZero(dst.prefixLen);
    var digits := Print(dst.prefixLen);
    if '/' in dst.text {
      SlashInside(dst.text);
    } else {
      NoneSlash(dst.text, digits);
      var text := dst.text + "/" + digits;
      assert text[..|dst.text|] == dst.text && text[|dst.text|] == '/' && text[|dst.text| + 1..] == digits;
    }
  }

  lemma SlashInside(text: string)
    requires '/' in text
    ensures text <= "none/0" <==> text == "none/" || text == "none/0"
    ensures text != "none"
  {
    var i :| 0 <= i < |text| && text[i] == '/';
    assert "none/0"[4] == '/' && "none/0"[0] == 'n' && "none/0"[1] == 'o' && "none/0"[2] == 'n' && "none/0"[3] == 'e';
    assert "none/0"[5] == '0' && "none"[0] == 'n' && "none"[1] == 'o' && "none"[2] == 'n' && "none"[3] == 'e';
    assert "none/" == "none/0"[..5];
    if text <= "none/0" {
      assert text == "none/0"[..|text|];
    }
  }

  lemma HopsShown(route: KernelRoute, modules: Modules, names: Names)
    ensures ShowsHops(HopsOf(HopOf(route, names), route.family, modules, names), route, modules, names)
  {
  }

  /** The entry of a cache route shows its contents. */
  lemma EntryShows(cache: seq<KernelRoute>, names: Names, modules: Modules, j: nat)
    requires j < |cache|
    ensures Shows(RouteEntry(cache, names, modules, j), cache[j], modules, names)
  {
    hide RibPath, Print, Spells, PrefixText, Rewritten, HopsOf, HopOf, ShowsPrefix, ShowsHops, IsWinner;
    PathShown(names.table(cache[j].table), cache[j].family);
    PrintSpells(cache[j].priority);
    PrefixShown(cache[j].dst, cache[j].family);
    HopsShown(cache[j], modules, names);
  }

  /** Rearranged, the emitted entries show the cache routes one by one, with the preferred
      ones and no others marked active. */
  lemma EmittedEntries(cache: seq<KernelRoute>, names: Names, modules: Modules) returns (es: seq<Entry>)
    ensures multiset(es) == multiset(Entries(Index(cache, names), modules, names))
    ensures |es| == |cache|
    ensures forall j | 0 <= j < |cache| ::
              && Shows(es[j], cache[j], modules, names)
              && (es[j].active <==>
                    IsWinner(cache, names, Key(names.table(cache[j].table), cache[j].family, cache[j].dst), j))
  {
    hide Entries, Index, Shows, IsWinner;
    es := RouteEntries(cache, names, modules);
    EntriesAreRoutes(cache, names, modules);
    forall j | 0 <= j < |cache|
      ensures Shows(es[j], cache[j], modules, names)
    {
      EntryShows(cache, names, modules, j);
    }
  }
}
