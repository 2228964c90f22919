/** What the static-route callback promises for every event stream and every kernel. */
module StaticRouteProperties {
  import opened Wrappers
  import opened Sequences
  import opened Sysrepo
  import opened NextHops
  import opened Routes
  import opened RouteListHashes
  import opened StaticRoutes

  /** Reference design without indexes and cursors: a flat list with one block per
      destination-prefix event; a leaf event edits the last block. */
  datatype Block = Block(created: bool, prefix: NlAddr, route: RouteView)

  predicate Gateable(blocks: seq<Block>) {
    forall b | b in blocks :: b.route.hop.NoHop? || (b.route.hop.SimpleView? && b.route.hop.simple.addr.Some?)
  }

  function BlockStep(blocks: seq<Block>, ev: Event, parse: AddrParser): (r: Option<seq<Block>>)
    requires Gateable(blocks)
    ensures r.Some? ==> Gateable(r.value)
  {
    var last := |blocks| - 1;
    if ev.op.Modified? || ev.op.Moved? then Some(blocks)
    else if IsPrefixNode(ev.name) then
      match parse(ev.value)
      case None => None
      case Some(prefix) => Some(blocks + [Block(ev.op.Created?, prefix, EMPTY_ROUTE)])
    else if IsDescriptionNode(ev.name) then
      if blocks == [] then None
      else Some(blocks[last := blocks[last].(route := Describe(blocks[last].route, ev.value))])
    else if IsGatewayNode(ev.name) then
      if blocks == [] || parse(ev.value).None? then None
      else Some(blocks[last := blocks[last].(route := Gate(blocks[last].route, parse(ev.value).value))])
    else Some(blocks)
  }

  function Blocks(events: seq<Event>, parse: AddrParser): (r: Option<seq<Block>>)
    ensures r.Some? ==> Gateable(r.value)
  {
    if events == [] then Some([]) else
      var n := |events| - 1;
      match Blocks(events[..n], parse)
      case None => None
      case Some(blocks) => BlockStep(blocks, events[n], parse)
  }

  /** The blocks of one side, gathered by prefix in arrival order. */
  function Gather(blocks: seq<Block>, created: bool): seq<Group> {
    if blocks == [] then [] else
      var last := blocks[|blocks| - 1];
      var groups := Gather(blocks[..|blocks| - 1], created);
      if last.created == created then AddToGroups(groups, last.prefix, last.route) else groups
  }

  function CursorOf(blocks: seq<Block>): Option<Cursor> {
    if blocks == [] then None else
      var last := blocks[|blocks| - 1];
      Some(Cursor(last.created, Find(Gather(blocks, last.created), last.prefix)))
  }

  function StateOf(blocks: seq<Block>): FoldState {
    FoldState(Gather(blocks, true), Gather(blocks, false), CursorOf(blocks))
  }

  lemma GatherSnoc(blocks: seq<Block>, b: Block, created: bool)
    ensures Gather(blocks + [b], created) ==
            if b.created == created then AddToGroups(Gather(blocks, created), b.prefix, b.route)
              else Gather(blocks, created)
  {
    assert (blocks + [b])[..|blocks|] == blocks;
  }

  lemma AddedThenReplaced(groups: seq<Group>, prefix: NlAddr, route: RouteView, better: RouteView)
    ensures var added := AddToGroups(groups, prefix, route);
            var k := Find(added, prefix);
            && k < |added| && added[k].routes != [] && added[k].routes[0] == route
            && added[k := added[k].(routes := added[k].routes[0 := better])] == AddToGroups(groups, prefix, better)
            && Find(AddToGroups(groups, prefix, better), prefix) == k
  {
    FindAdded(groups, prefix, route);
    FindAdded(groups, prefix, better);
    var k := Find(groups, prefix);
    if k < |groups| {
      assert ([route] + groups[k].routes)[0 := better] == [better] + groups[k].routes;
    } else {
      assert [route][0 := better] == [better];
    }
  }

  /** The cursor always denotes the newest route of the last-mentioned prefix: editing
      through it is editing the last block. */
  lemma CursorIsLastBlock(blocks: seq<Block>, better: RouteView)
    requires blocks != [] && StateOf(blocks).Sound()
    ensures var last := blocks[|blocks| - 1];
            && Newest(StateOf(blocks)) == last.route
            && ReplaceNewest(StateOf(blocks), better) == StateOf(blocks[|blocks| - 1 := last.(route := better)])
  {
    hide AddToGroups, Find;
    var n := |blocks| - 1;
    var init, last := blocks[..n], blocks[n];
    var edited := blocks[n := last.(route := better)];
    assert blocks == init + [last] && edited == init + [last.(route := better)];
    GatherSnoc(init, last, true);
    GatherSnoc(init, last, false);
    GatherSnoc(init, last.(route := better), true);
    GatherSnoc(init, last.(route := better), false);
    AddedThenReplaced(Gather(init, last.created), last.prefix, last.route, better);
  }

  /** For every stream, the two indexes and the cursor are the flat list, gathered by
      prefix; and the fold fails exactly when the flat design fails. */
  lemma {:induction false} FoldIsGather(events: seq<Event>, parse: AddrParser)
    ensures Fold(events, parse).Some? <==> Blocks(events, parse).Some?
    ensures Fold(events, parse).Some? ==> Fold(events, parse).value == StateOf(Blocks(events, parse).value)
  {
    if events != [] {
      var n := |events| - 1;
      FoldIsGather(events[..n], parse);
      if Blocks(events[..n], parse).Some? {
        StepIsBlockStep(Blocks(events[..n], parse).value, events[n], parse);
      }
    }
  }

  lemma StepIsBlockStep(blocks: seq<Block>, ev: Event, parse: AddrParser)
    requires Gateable(blocks) && StateOf(blocks).Sound()
    ensures Step(StateOf(blocks), ev, parse).Some? <==> BlockStep(blocks, ev, parse).Some?
    ensures BlockStep(blocks, ev, parse).Some? ==>
              Step(StateOf(blocks), ev, parse).value == StateOf(BlockStep(blocks, ev, parse).value)
  {
    hide Gather, AddToGroups, Find, ReplaceNewest, Newest;
    NodeNamesExclusive(ev.name);
    if ev.op.Modified? || ev.op.Moved? {
    } else if IsPrefixNode(ev.name) {
      if parse(ev.value).Some? {
        var b := Block(ev.op.Created?, parse(ev.value).value, EMPTY_ROUTE);
        GatherSnoc(blocks, b, true);
        GatherSnoc(blocks, b, false);
      }
    } else if blocks != [] && IsDescriptionNode(ev.name) {
      CursorIsLastBlock(blocks, Describe(blocks[|blocks| - 1].route, ev.value));
    } else if blocks != [] && IsGatewayNode(ev.name) && parse(ev.value).Some? {
      CursorIsLastBlock(blocks, Gate(blocks[|blocks| - 1].route, parse(ev.value).value));
    }
  }

  // ---- when gathering fails ----

  predicate Relevant(ev: Event) {
    ev.op.Created? || ev.op.Deleted?
  }

  /** Event `i` sends the loop to its error exit: an address that does not parse, or a
      leaf before the first destination prefix. */
  predicate Offends(events: seq<Event>, parse: AddrParser, i: nat)
    requires i < |events|
  {
    var ev := events[i];
    && Relevant(ev)
    && if "destination-prefix" <= ev.name then parse(ev.value).None?
       else if "description" <= ev.name then !PrefixBefore(events, i)
       else "next-hop-address" <= ev.name && (!PrefixBefore(events, i) || parse(ev.value).None?)
  }

  predicate PrefixBefore(events: seq<Event>, i: nat)
    requires i <= |events|
  {
    exists j | 0 <= j < i :: Relevant(events[j]) && "destination-prefix" <= events[j].name
  }

  lemma OffendsInPrefix(events: seq<Event>, parse: AddrParser, n: nat, i: nat)
    requires i < n <= |events|
    ensures Offends(events[..n], parse, i) <==> Offends(events, parse, i)
  {
    assert PrefixBefore(events[..n], i) <==> PrefixBefore(events, i);
  }

  lemma PrefixBeforeNext(events: seq<Event>, i: nat)
    requires i < |events|
    ensures PrefixBefore(events, i + 1) <==>
            PrefixBefore(events[..i], i) || (Relevant(events[i]) && IsPrefixNode(events[i].name))
  {
  }

  lemma {:induction false} BlocksFailIff(events: seq<Event>, parse: AddrParser)
    ensures Blocks(events, parse).None? <==> exists i | 0 <= i < |events| :: Offends(events, parse, i)
    ensures Blocks(events, parse).Some? ==> (Blocks(events, parse).value != [] <==> PrefixBefore(events, |events|))
  {
    hide IsPrefixNode, IsDescriptionNode, IsGatewayNode, Describe, Gate, Offends;
    if events != [] {
      var n := |events| - 1;
      var init := events[..n];
      BlocksFailIff(init, parse);
      PrefixBeforeNext(events, n);
      NodeNamesExclusive(events[n].name);
      assert PrefixBefore(events, n) <==> PrefixBefore(init, n);
      if Blocks(init, parse).None? {
        var i :| 0 <= i < |init| && Offends(init, parse, i);
        OffendsInPrefix(events, parse, n, i);
      } else {
        LastOffends(events, parse);
        forall i | 0 <= i < n
          ensures !Offends(events, parse, i)
        {
          OffendsInPrefix(events, parse, n, i);
        }
      }
    }
  }

  /** The same through the tests of the switch. */
  lemma OffendsByNode(events: seq<Event>, parse: AddrParser, i: nat)
    requires i < |events|
    ensures var ev := events[i];
            Offends(events, parse, i) <==>
              && Relevant(ev)
              && if IsPrefixNode(ev.name) then parse(ev.value).None?
                 else if IsDescriptionNode(ev.name) then !PrefixBefore(events, i)
                 else IsGatewayNode(ev.name) && (!PrefixBefore(events, i) || parse(ev.value).None?)
  {
    hide PrefixBefore;
  }

  lemma LastOffends(events: seq<Event>, parse: AddrParser)
    requires events != [] && Blocks(events[..|events| - 1], parse).Some?
    requires Blocks(events[..|events| - 1], parse).value != [] <==> PrefixBefore(events, |events| - 1)
    ensures Blocks(events, parse).None? <==> Offends(events, parse, |events| - 1)
  {
    OffendsByNode(events, parse, |events| - 1);
    hide IsPrefixNode, IsDescriptionNode, IsGatewayNode, PrefixBefore, Describe, Gate, Offends;
  }

  /** The callback reaches the kernel exactly when no event offends. */
  lemma GatheringFailsIff(events: seq<Event>, parse: AddrParser)
    ensures Fold(events, parse).None? <==> exists i | 0 <= i < |events| :: Offends(events, parse, i)
  {
    FoldIsGather(events, parse);
    BlocksFailIff(events, parse);
  }

  // ---- streams of created and deleted list entries ----

  /** One created or deleted list entry: its key leaf, its description and, in the order in
      which they are listed, its next-hop-address leaves; a next-hop-list has several. */
  datatype Entry = Entry(created: bool, prefix: string, description: Option<string>, gateways: seq<string>)

  function OpOf(entry: Entry): Operation {
    if entry.created then Created else Deleted
  }

  function GatewayEvents(op: Operation, gateways: seq<string>): seq<Event> {
    if gateways == [] then [] else
      var n := |gateways| - 1;
      GatewayEvents(op, gateways[..n]) + [Event(op, "next-hop-address", gateways[n])]
  }

  function Emit(entry: Entry): seq<Event> {
    [Event(OpOf(entry), "destination-prefix", entry.prefix)]
    + (if entry.description.Some? then [Event(OpOf(entry), "description", entry.description.value)] else [])
    + GatewayEvents(OpOf(entry), entry.gateways)
  }

  function EmitAll(entries: seq<Entry>): seq<Event> {
    if entries == [] then [] else EmitAll(entries[..|entries| - 1]) + Emit(entries[|entries| - 1])
  }

  predicate Parses(entry: Entry, parse: AddrParser) {
    parse(entry.prefix).Some? && forall g | g in entry.gateways :: parse(g).Some?
  }

  /** The one next hop that a route can hold: each gateway has overwritten the one before. */
  function LastHop(gateways: seq<string>, parse: AddrParser): HopView {
    if gateways == [] then NoHop else SimpleView(SimpleHop(parse(gateways[|gateways| - 1]), 0, None))
  }

  /** The block an entry stands for: its own prefix, description and last gateway. */
  function BlockOf(entry: Entry, parse: AddrParser): Block
    requires Parses(entry, parse)
  {
    Block(entry.created, parse(entry.prefix).value,
      EMPTY_ROUTE.(description := entry.description, hop := LastHop(entry.gateways, parse)))
  }

  function BlocksOf(entries: seq<Entry>, parse: AddrParser): (r: seq<Block>)
    requires forall e | e in entries :: Parses(e, parse)
    ensures |r| == |entries|
    ensures forall i | 0 <= i < |r| :: r[i] == BlockOf(entries[i], parse)
  {
    seq(|entries|, i requires 0 <= i < |entries| => BlockOf(entries[i], parse))
  }

  lemma BlocksSnoc(events: seq<Event>, ev: Event, parse: AddrParser)
    ensures Blocks(events + [ev], parse) ==
            match Blocks(events, parse) case None => None case Some(blocks) => BlockStep(blocks, ev, parse)
  {
    assert (events + [ev])[..|events|] == events;
  }

  /** The events of a stream that the switch acts on. List nodes, containers, other leaves
      and everything modified or moved is left out. */
  function Essential(events: seq<Event>): seq<Event> {
    if events == [] then [] else
      var ev := events[|events| - 1];
      Essential(events[..|events| - 1]) + if IsEssential(ev) then [ev] else []
  }

  predicate IsEssential(ev: Event) {
    && Relevant(ev)
    && ("destination-prefix" <= ev.name || "description" <= ev.name || "next-hop-address" <= ev.name)
  }

  /** Wherever they stand in the stream, the other events change nothing. */
  lemma {:induction false} NoiseIsIgnored(events: seq<Event>, parse: AddrParser)
    ensures Blocks(Essential(events), parse) == Blocks(events, parse)
  {
    if events != [] {
      var n := |events| - 1;
      NoiseIsIgnored(events[..n], parse);
      if IsEssential(events[n]) {
        BlocksSnoc(Essential(events[..n]), events[n], parse);
      } else {
        assert Essential(events) == Essential(events[..n]);
      }
    }
  }

  lemma {:induction false} EssentialAppend(a: seq<Event>, b: seq<Event>)
    ensures Essential(a + b) == Essential(a) + Essential(b)
  {
    hide IsEssential;
    if b == [] {
      assert a + b == a;
    } else {
      var n := |b| - 1;
      assert (a + b)[..|a + b| - 1] == a + b[..n];
      EssentialAppend(a, b[..n]);
    }
  }

  /** In every stream that carries the leaves of some entries, one entry after the other and
      with any other nodes between them, each leaf lands in the route of its own entry,
      whatever the sides of the entries. */
  lemma EntriesBecomeBlocks(events: seq<Event>, entries: seq<Entry>, parse: AddrParser)
    requires forall e | e in entries :: Parses(e, parse)
    requires Essential(events) == EmitAll(entries)
    ensures Blocks(events, parse) == Some(BlocksOf(entries, parse))
  {
    NoiseIsIgnored(events, parse);
    EmittedBlocks(entries, parse);
  }

  lemma {:induction false} EmittedBlocks(entries: seq<Entry>, parse: AddrParser)
    requires forall e | e in entries :: Parses(e, parse)
    ensures Blocks(EmitAll(entries), parse) == Some(BlocksOf(entries, parse))
  {
    if entries != [] {
      var n := |entries| - 1;
      var e := entries[n];
      EmittedBlocks(entries[..n], parse);
      EntryBecomesBlock(EmitAll(entries[..n]), BlocksOf(entries[..n], parse), e, parse);
      assert BlocksOf(entries, parse) == BlocksOf(entries[..n], parse) + [BlockOf(e, parse)];
    }
  }

  lemma EntryBecomesBlock(events: seq<Event>, blocks: seq<Block>, e: Entry, parse: AddrParser)
    requires Parses(e, parse) && Blocks(events, parse) == Some(blocks)
    ensures Blocks(events + Emit(e), parse) == Some(blocks + [BlockOf(e, parse)])
  {
    hide Blocks;
    var op := OpOf(e);
    NodeNames();
    var e1 := events + [Event(op, "destination-prefix", e.prefix)];
    var b1 := Block(e.created, parse(e.prefix).value, EMPTY_ROUTE);
    BlocksSnoc(events, Event(op, "destination-prefix", e.prefix), parse);
    assert Blocks(e1, parse) == Some(blocks + [b1]);
    var e2 := if e.description.Some? then e1 + [Event(op, "description", e.description.value)] else e1;
    var b2 := b1.(route := b1.route.(description := e.description));
    if e.description.Some? {
      BlocksSnoc(e1, Event(op, "description", e.description.value), parse);
      assert (blocks + [b1])[|blocks| := b2] == blocks + [b2];
    }
    assert Blocks(e2, parse) == Some(blocks + [b2]);
    GatewaysLand(e2, blocks, b2, op, e.gateways, parse);
    assert e2 + GatewayEvents(op, e.gateways) == events + Emit(e);
  }

  lemma {:induction false} GatewaysLand(events: seq<Event>, blocks: seq<Block>, b: Block, op: Operation,
      gateways: seq<string>, parse: AddrParser)
    requires Blocks(events, parse) == Some(blocks + [b]) && b.route.hop.NoHop?
    requires (op.Created? || op.Deleted?) && forall g | g in gateways :: parse(g).Some?
    ensures Blocks(events + GatewayEvents(op, gateways), parse) ==
            Some(blocks + [b.(route := b.route.(hop := LastHop(gateways, parse)))])
  {
    NodeNames();
    hide Blocks;
    if gateways == [] {
      assert events + GatewayEvents(op, gateways) == events;
    } else {
      var n := |gateways| - 1;
      var ev := Event(op, "next-hop-address", gateways[n]);
      GatewaysLand(events, blocks, b, op, gateways[..n], parse);
      assert events + GatewayEvents(op, gateways) == (events + GatewayEvents(op, gateways[..n])) + [ev];
      BlocksSnoc(events + GatewayEvents(op, gateways[..n]), ev, parse);
      var before := b.(route := b.route.(hop := LastHop(gateways[..n], parse)));
      var after := b.(route := b.route.(hop := LastHop(gateways, parse)));
      assert (blocks + [before])[|blocks| := after] == blocks + [after];
    }
  }

  lemma NodeNames()
    ensures IsPrefixNode("destination-prefix") && IsDescriptionNode("description") && IsGatewayNode("next-hop-address")
    ensures !IsPrefixNode("description") && !IsPrefixNode("next-hop-address") && !IsDescriptionNode("next-hop-address")
  {
    NodeNamesExclusive("description");
    NodeNamesExclusive("next-hop-address");
  }

  // ---- one route per prefix ----

  function Prefixes(blocks: seq<Block>, created: bool): seq<NlAddr> {
    if blocks == [] then [] else
      var last := blocks[|blocks| - 1];
      Prefixes(blocks[..|blocks| - 1], created) + if last.created == created then [last.prefix] else []
  }

  function Singles(blocks: seq<Block>, created: bool): seq<Group> {
    if blocks == [] then [] else
      var last := blocks[|blocks| - 1];
      Singles(blocks[..|blocks| - 1], created) +
      if last.created == created then [Group(last.prefix, [last.route])] else []
  }

  lemma {:induction false} SinglesPrefixes(blocks: seq<Block>, created: bool)
    ensures |Singles(blocks, created)| == |Prefixes(blocks, created)|
    ensures forall i | 0 <= i < |Singles(blocks, created)| ::
              Singles(blocks, created)[i].prefix == Prefixes(blocks, created)[i]
                && |Singles(blocks, created)[i].routes| == 1
  {
    if blocks != [] {
      SinglesPrefixes(blocks[..|blocks| - 1], created);
    }
  }

  lemma {:induction false} FindAbsent(groups: seq<Group>, prefix: NlAddr)
    requires forall g | g in groups :: g.prefix != prefix
    ensures Find(groups, prefix) == |groups|
  {
    if groups != [] {
      FindAbsent(groups[1..], prefix);
    }
  }

  /** With distinct prefixes each index holds exactly one route per prefix, in order of
      arrival, carrying the leaves of its own block. */
  lemma {:induction false} OneRoutePerPrefix(blocks: seq<Block>, created: bool)
    requires Distinct(Prefixes(blocks, created))
    ensures Gather(blocks, created) == Singles(blocks, created)
  {
    if blocks != [] {
      var n := |blocks| - 1;
      var last := blocks[n];
      var before := Prefixes(blocks[..n], created);
      assert before <= Prefixes(blocks, created);
      assert forall i | 0 <= i < |before| :: before[i] == Prefixes(blocks, created)[i];
      OneRoutePerPrefix(blocks[..n], created);
      if last.created == created {
        SinglesPrefixes(blocks[..n], created);
        assert Prefixes(blocks, created)[|before|] == last.prefix;
        FindAbsent(Singles(blocks[..n], created), last.prefix);
      }
    }
  }
}
