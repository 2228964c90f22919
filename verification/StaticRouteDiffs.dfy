/** What the static-route callback makes of the diff between two configurations of one
    protocol instance: when it succeeds, and when the kernel then holds the new one. */
module StaticRouteDiffs {
  import opened Wrappers
  import opened Sequences
  import opened Sysrepo
  import opened NextHops
  import opened StaticRoutes
  import opened StaticRouteApply
  import opened StaticRouteProperties
  import opened StaticRouteKernel

  // ---- the configuration ----

  /** outgoing-interface and next-hop-address, of a simple next hop or of one in a list. */
  datatype Hop = Hop(outgoingInterface: Option<string>, address: Option<NlAddr>)

  /** The next-hop container of a static route, by the cases of its choice; each hop of a
      list has its index leaf. */
  datatype HopChoice = OneHop(hop: Hop) | SpecialHop(kind: string) | HopList(hops: seq<(string, Hop)>)

  datatype RouteConfig = RouteConfig(description: Option<string>, nextHop: HopChoice)

  type Config = map<NlAddr, RouteConfig>

  datatype Session = Session(before: Config, after: Config)

  /** Which next-hop-address leaf of an entry. */
  datatype LeafId = Alone | Indexed(index: string)

  function FindAddress(hops: seq<(string, Hop)>, index: string): Option<NlAddr> {
    if hops == [] then None
    else if hops[0].0 == index then hops[0].1.address
    else FindAddress(hops[1..], index)
  }

  function AddressAt(choice: HopChoice, id: LeafId): Option<NlAddr> {
    match (choice, id)
    case (OneHop(hop), Alone) => hop.address
    case (HopList(hops), Indexed(index)) => FindAddress(hops, index)
    case _ => None
  }

  function AddressIn(config: Config, k: NlAddr, id: LeafId): Option<NlAddr> {
    if k in config then AddressAt(config[k].nextHop, id) else None
  }

  /** The text of an address in the data tree. */
  type Printer = NlAddr -> string

  /** Parsing the texts of a configuration gives back its addresses. */
  ghost predicate Canonical(parse: AddrParser, text: Printer, config: Config) {
    forall k | k in config ::
      && parse(text(k)) == Some(k)
      && forall id | AddressIn(config, k, id).Some? ::
           parse(text(AddressIn(config, k, id).value)) == AddressIn(config, k, id)
  }

  ghost predicate Readable(parse: AddrParser, text: Printer, session: Session) {
    Canonical(parse, text, session.before) && Canonical(parse, text, session.after)
  }

  // ---- the diff as a stream of events ----

  predicate IsCreated(session: Session, k: NlAddr) {
    k !in session.before && k in session.after
  }

  predicate IsDeleted(session: Session, k: NlAddr) {
    k in session.before && k !in session.after
  }

  predicate Survives(session: Session, k: NlAddr) {
    k in session.before && k in session.after
  }

  predicate Changed(session: Session, k: NlAddr) {
    || IsCreated(session, k) || IsDeleted(session, k)
    || (Survives(session, k) && session.before[k] != session.after[k])
  }

  function DescriptionIn(config: Config, k: NlAddr): Option<string> {
    if k in config then config[k].description else None
  }

  function TextOf(address: Option<NlAddr>, text: Printer): Option<string> {
    if address.Some? then Some(text(address.value)) else None
  }

  function LeafEvents(name: string, before: Option<string>, after: Option<string>): seq<Event> {
    match (before, after)
    case (None, None) => []
    case (None, Some(v)) => [Event(Created, name, v)]
    case (Some(v), None) => [Event(Deleted, name, v)]
    case (Some(v), Some(w)) => if v == w then [] else [Event(Modified, name, w)]
  }

  function AddressEvents(session: Session, k: NlAddr, ids: seq<LeafId>, text: Printer): seq<Event> {
    if ids == [] then [] else
      var id := ids[|ids| - 1];
      AddressEvents(session, k, ids[..|ids| - 1], text)
      + LeafEvents("next-hop-address", TextOf(AddressIn(session.before, k, id), text),
                                       TextOf(AddressIn(session.after, k, id), text))
  }

  /** A changed entry with its changed next-hop-address leaves in the order of the diff. */
  datatype Listed = Listed(key: NlAddr, ids: seq<LeafId>)

  function OwnEvents(session: Session, k: NlAddr, text: Printer): seq<Event> {
    LeafEvents("destination-prefix", if k in session.before then Some(text(k)) else None,
                                     if k in session.after then Some(text(k)) else None)
    + LeafEvents("description", DescriptionIn(session.before, k), DescriptionIn(session.after, k))
  }

  /** The events of one entry: its key if the entry itself comes or goes, then its leaves. */
  function EntryEvents(session: Session, l: Listed, text: Printer): seq<Event> {
    OwnEvents(session, l.key, text) + AddressEvents(session, l.key, l.ids, text)
  }

  function DiffEvents(session: Session, order: seq<Listed>, text: Printer): seq<Event> {
    if order == [] then [] else
      DiffEvents(session, order[..|order| - 1], text) + EntryEvents(session, order[|order| - 1], text)
  }

  function Keys(order: seq<Listed>): (r: seq<NlAddr>)
    ensures |r| == |order| && forall i | 0 <= i < |r| :: r[i] == order[i].key
  {
    seq(|order|, i requires 0 <= i < |order| => order[i].key)
  }

  ghost predicate ListsLeaves(session: Session, l: Listed) {
    && Distinct(l.ids)
    && forall id :: id in l.ids <==> AddressIn(session.before, l.key, id) != AddressIn(session.after, l.key, id)
  }

  /** The diff lists every changed entry once, each with its changed address leaves, entries
      and leaves in any order. */
  ghost predicate ListsChanged(session: Session, order: seq<Listed>) {
    && Distinct(Keys(order)) && (forall k :: k in Keys(order) <==> Changed(session, k))
    && forall l | l in order :: ListsLeaves(session, l)
  }

  /** The stream carries that diff, with any other nodes in between. */
  ghost predicate IsStream(events: seq<Event>, session: Session, order: seq<Listed>, text: Printer) {
    ListsChanged(session, order) && Essential(events) == Essential(DiffEvents(session, order, text))
  }

  ghost predicate AllChanged(session: Session, order: seq<Listed>) {
    forall l | l in order :: Changed(session, l.key)
  }

  lemma ListsOnlyChanged(session: Session, order: seq<Listed>)
    requires ListsChanged(session, order)
    ensures AllChanged(session, order)
  {
    hide Changed;
    forall l | l in order
      ensures Changed(session, l.key)
    {
      var i :| 0 <= i < |order| && order[i] == l;
      assert Keys(order)[i] in Keys(order);
    }
  }

  // ---- where the leaves land ----

  /** The address of a leaf that comes or goes; a modified leaf is ignored. */
  function Moved(session: Session, k: NlAddr, id: LeafId): Option<NlAddr> {
    match (AddressIn(session.before, k, id), AddressIn(session.after, k, id))
    case (None, Some(a)) => Some(a)
    case (Some(a), None) => Some(a)
    case _ => None
  }

  /** The address that an entry's events leave behind: each has overwritten the one before. */
  function LastMoved(session: Session, k: NlAddr, ids: seq<LeafId>): Option<NlAddr> {
    if ids == [] then None else
      var moved := Moved(session, k, ids[|ids| - 1]);
      if moved.Some? then moved else LastMoved(session, k, ids[..|ids| - 1])
  }

  function Gateway(session: Session, l: Listed): Option<NlAddr> {
    LastMoved(session, l.key, l.ids)
  }

  /** A survivor with a leaf that comes or goes. */
  predicate Stray(session: Session, l: Listed) {
    Survives(session, l.key)
    && (Gateway(session, l).Some?
        || DescriptionIn(session.before, l.key).Some? != DescriptionIn(session.after, l.key).Some?)
  }

  /** A created or deleted entry with the gateway that its route ends up with. */
  datatype Landing = Landing(created: bool, key: NlAddr, gateway: Option<NlAddr>)

  function WithLast(landings: seq<Landing>, gateway: Option<NlAddr>): seq<Landing> {
    var last := |landings| - 1;
    if landings == [] || gateway.None? then landings
    else landings[last := landings[last].(gateway := gateway)]
  }

  /** A stray leaf has no entry of its own to go to: it lands in the entry that was listed
      last, and there must be one. */
  function Land(session: Session, landings: seq<Landing>, l: Listed): Option<seq<Landing>> {
    if IsCreated(session, l.key) then Some(landings + [Landing(true, l.key, Gateway(session, l))])
    else if IsDeleted(session, l.key) then Some(landings + [Landing(false, l.key, Gateway(session, l))])
    else if Stray(session, l) && landings == [] then None
    else Some(WithLast(landings, Gateway(session, l)))
  }

  function Landings(session: Session, order: seq<Listed>): Option<seq<Landing>> {
    if order == [] then Some([]) else
      match Landings(session, order[..|order| - 1])
      case None => None
      case Some(landings) => Land(session, landings, order[|order| - 1])
  }

  function HopFor(gateway: Option<NlAddr>): HopView {
    if gateway.None? then NoHop else SimpleView(SimpleHop(gateway, 0, None))
  }

  /** What the kernel is told about it. */
  function HopsFor(gateway: Option<NlAddr>): Hops {
    Unicast(if gateway.None? then [] else [RequestHop(None, gateway)])
  }

  predicate Lands(b: Block, l: Landing) {
    b.created == l.created && b.prefix == l.key && b.route.preference == 0 && b.route.hop == HopFor(l.gateway)
  }

  predicate AllLand(blocks: seq<Block>, landings: seq<Landing>) {
    |blocks| == |landings| && forall i | 0 <= i < |blocks| :: Lands(blocks[i], landings[i])
  }

  lemma {:induction false} StaysFailed(a: seq<Event>, b: seq<Event>, parse: AddrParser)
    requires Blocks(a, parse).None?
    ensures Blocks(a + b, parse).None?
  {
    if b == [] {
      assert a + b == a;
    } else {
      var n := |b| - 1;
      assert a + b == (a + b[..n]) + [b[n]];
      StaysFailed(a, b[..n], parse);
      BlocksSnoc(a + b[..n], b[n], parse);
    }
  }

  /** One leaf event, in whatever entry it belongs. */
  lemma LeafLands(ev: Event, parse: AddrParser, events: seq<Event>, blocks: seq<Block>)
    requires Blocks(events, parse) == Some(blocks) && !IsPrefixNode(ev.name)
    requires IsDescriptionNode(ev.name) ||
             (IsGatewayNode(ev.name) && !IsDescriptionNode(ev.name) && parse(ev.value).Some?)
    ensures var last := |blocks| - 1;
            Blocks(events + [ev], parse) ==
            if !Relevant(ev) then Some(blocks)
            else if blocks == [] then None
            else if IsDescriptionNode(ev.name) then
              Some(blocks[last := blocks[last].(route := Describe(blocks[last].route, ev.value))])
            else Some(blocks[last := blocks[last].(route := Gate(blocks[last].route, parse(ev.value).value))])
  {
    BlocksSnoc(events, ev, parse);
  }

  lemma DescriptionLands(before: Option<string>, after: Option<string>, parse: AddrParser, events: seq<Event>,
      blocks: seq<Block>, landings: seq<Landing>)
    requires Blocks(events, parse) == Some(blocks) && AllLand(blocks, landings)
    ensures var r := Blocks(events + LeafEvents("description", before, after), parse);
            && (r.Some? <==> (before.Some? != after.Some? ==> landings != []))
            && (r.Some? ==> AllLand(r.value, landings))
  {
    NodeNames();
    var evs := LeafEvents("description", before, after);
    hide Blocks;
    if evs == [] {
      assert events + evs == events;
    } else {
      LeafLands(evs[0], parse, events, blocks);
    }
  }

  lemma AddressLands(session: Session, k: NlAddr, id: LeafId, text: Printer, parse: AddrParser, events: seq<Event>,
      blocks: seq<Block>, landings: seq<Landing>)
    requires Readable(parse, text, session) && Blocks(events, parse) == Some(blocks) && AllLand(blocks, landings)
    ensures var evs := LeafEvents("next-hop-address", TextOf(AddressIn(session.before, k, id), text),
                                                      TextOf(AddressIn(session.after, k, id), text));
            var r := Blocks(events + evs, parse);
            var moved := Moved(session, k, id);
            && (r.Some? <==> (moved.Some? ==> landings != []))
            && (r.Some? ==> AllLand(r.value, WithLast(landings, moved)))
  {
    NodeNames();
    var was, now := AddressIn(session.before, k, id), AddressIn(session.after, k, id);
    var evs := LeafEvents("next-hop-address", TextOf(was, text), TextOf(now, text));
    hide Blocks, AddressIn;
    assert was.Some? ==> k in session.before && parse(text(was.value)) == was by { InConfig(session.before, k, id); }
    assert now.Some? ==> k in session.after && parse(text(now.value)) == now by { InConfig(session.after, k, id); }
    if evs == [] {
      assert events + evs == events;
    } else {
      LeafLands(evs[0], parse, events, blocks);
    }
  }

  lemma InConfig(config: Config, k: NlAddr, id: LeafId)
    ensures AddressIn(config, k, id).Some? ==> k in config
  {
  }

  lemma {:induction false} AddressesLand(session: Session, k: NlAddr, ids: seq<LeafId>, text: Printer,
      parse: AddrParser, events: seq<Event>, blocks: seq<Block>, landings: seq<Landing>)
    requires Readable(parse, text, session) && Blocks(events, parse) == Some(blocks) && AllLand(blocks, landings)
    ensures var r := Blocks(events + AddressEvents(session, k, ids, text), parse);
            var moved := LastMoved(session, k, ids);
            && (r.Some? <==> (moved.Some? ==> landings != []))
            && (r.Some? ==> AllLand(r.value, WithLast(landings, moved)))
  {
    hide Blocks, Readable, AllLand, Moved, AddressIn;
    if ids == [] {
      assert events + AddressEvents(session, k, ids, text) == events;
    } else {
      var n := |ids| - 1;
      var first := AddressEvents(session, k, ids[..n], text);
      var last := LeafEvents("next-hop-address", TextOf(AddressIn(session.before, k, ids[n]), text),
                                                 TextOf(AddressIn(session.after, k, ids[n]), text));
      AddressesLand(session, k, ids[..n], text, parse, events, blocks, landings);
      assert events + AddressEvents(session, k, ids, text) == (events + first) + last;
      var r := Blocks(events + first, parse);
      if r.Some? {
        var landed := WithLast(landings, LastMoved(session, k, ids[..n]));
        AddressLands(session, k, ids[n], text, parse, events + first, r.value, landed);
        LastTwice(landings, LastMoved(session, k, ids[..n]), Moved(session, k, ids[n]));
      } else {
        StaysFailed(events + first, last, parse);
      }
    }
  }

  lemma LastTwice(landings: seq<Landing>, a: Option<NlAddr>, b: Option<NlAddr>)
    ensures WithLast(WithLast(landings, a), b) == WithLast(landings, if b.Some? then b else a)
    ensures WithLast(landings, a) == [] <==> landings == []
  {
  }

  lemma OwnEntryLands(session: Session, l: Listed, text: Printer, parse: AddrParser, events: seq<Event>,
      blocks: seq<Block>, landings: seq<Landing>)
    requires Readable(parse, text, session) && Blocks(events, parse) == Some(blocks) && AllLand(blocks, landings)
    requires IsCreated(session, l.key) || IsDeleted(session, l.key)
    ensures var r := Blocks(events + EntryEvents(session, l, text), parse);
            r.Some? && AllLand(r.value, Land(session, landings, l).value)
  {
    hide Blocks, Gateway;
    var created := IsCreated(session, l.key);
    var e := Entry(created, text(l.key), DescriptionIn(if created then session.after else session.before, l.key), []);
    var own := OwnEvents(session, l.key, text);
    assert own == Emit(e);
    EntryBecomesBlock(events, blocks, e, parse);
    var bare := landings + [Landing(created, l.key, None)];
    AddressesLand(session, l.key, l.ids, text, parse, events + own, blocks + [BlockOf(e, parse)], bare);
    assert WithLast(bare, Gateway(session, l)) == landings + [Landing(created, l.key, Gateway(session, l))];
    assert events + EntryEvents(session, l, text) == (events + own) + AddressEvents(session, l.key, l.ids, text);
    assert Gateway(session, l) == LastMoved(session, l.key, l.ids) by { GatewayIs(session, l); }
  }

  lemma GatewayIs(session: Session, l: Listed)
    ensures Gateway(session, l) == LastMoved(session, l.key, l.ids)
  {
  }

  lemma SurvivorLands(session: Session, l: Listed, text: Printer, parse: AddrParser, events: seq<Event>,
      blocks: seq<Block>, landings: seq<Landing>)
    requires Readable(parse, text, session) && Blocks(events, parse) == Some(blocks) && AllLand(blocks, landings)
    requires Survives(session, l.key)
    ensures var r := Blocks(events + EntryEvents(session, l, text), parse);
            && (r.Some? <==> Land(session, landings, l).Some?)
            && (r.Some? ==> AllLand(r.value, Land(session, landings, l).value))
  {
    hide Blocks, Readable, AllLand, LastMoved, AddressEvents;
    var first := LeafEvents("description", DescriptionIn(session.before, l.key), DescriptionIn(session.after, l.key));
    var second := AddressEvents(session, l.key, l.ids, text);
    DescriptionLands(DescriptionIn(session.before, l.key), DescriptionIn(session.after, l.key), parse, events,
      blocks, landings);
    assert OwnEvents(session, l.key, text) == first;
    assert events + EntryEvents(session, l, text) == (events + first) + second;
    if Blocks(events + first, parse).Some? {
      AddressesLand(session, l.key, l.ids, text, parse, events + first, Blocks(events + first, parse).value, landings);
    } else {
      StaysFailed(events + first, second, parse);
    }
  }

  /** Gathering the diff gives one route per created or deleted entry, where it lands. */
  lemma {:induction false} DiffLands(session: Session, order: seq<Listed>, text: Printer, parse: AddrParser)
    requires Readable(parse, text, session) && AllChanged(session, order)
    ensures var r := Blocks(DiffEvents(session, order, text), parse);
            && (r.Some? <==> Landings(session, order).Some?)
            && (r.Some? ==> AllLand(r.value, Landings(session, order).value))
  {
    hide Blocks, Readable, AllLand, Land, EntryEvents;
    if order == [] {
      NothingLands(parse);
    } else {
      var n := |order| - 1;
      var events := DiffEvents(session, order[..n], text);
      DiffLands(session, order[..n], text, parse);
      if Blocks(events, parse).None? {
        StaysFailed(events, EntryEvents(session, order[n], text), parse);
      } else {
        var blocks, landings := Blocks(events, parse).value, Landings(session, order[..n]).value;
        if Survives(session, order[n].key) {
          SurvivorLands(session, order[n], text, parse, events, blocks, landings);
        } else {
          assert Changed(session, order[n].key);
          OwnEntryLands(session, order[n], text, parse, events, blocks, landings);
          OwnEntryHasLanding(session, landings, order[n]);
        }
      }
    }
  }

  lemma NothingLands(parse: AddrParser)
    ensures Blocks([], parse) == Some([]) && AllLand([], [])
  {
  }

  lemma OwnEntryHasLanding(session: Session, landings: seq<Landing>, l: Listed)
    requires IsCreated(session, l.key) || IsDeleted(session, l.key)
    ensures Land(session, landings, l).Some?
  {
  }

  // ---- when the stream can be gathered ----

  /** Some created or deleted entry is among the first `n`. */
  ghost predicate EntryBefore(session: Session, order: seq<Listed>, n: nat)
    requires n <= |order|
  {
    exists j | 0 <= j < n :: !Survives(session, order[j].key)
  }

  /** Every stray leaf is listed after some created or deleted entry. */
  ghost predicate NoEarlyStray(session: Session, order: seq<Listed>) {
    forall i | 0 <= i < |order| && Stray(session, order[i]) :: EntryBefore(session, order, i)
  }

  lemma KindsExclude(session: Session, k: NlAddr)
    requires Changed(session, k)
    ensures IsCreated(session, k) || IsDeleted(session, k) <==> !Survives(session, k)
    ensures !(IsCreated(session, k) && IsDeleted(session, k))
  {
  }

  lemma {:induction false} LandingsIff(session: Session, order: seq<Listed>)
    requires AllChanged(session, order)
    ensures Landings(session, order).Some? <==> NoEarlyStray(session, order)
    ensures Landings(session, order).Some? ==>
              (Landings(session, order).value != [] <==> EntryBefore(session, order, |order|))
  {
    hide Gateway, Changed, EntryBefore;
    if order == [] {
      NoEntryBefore(session, order);
    } else {
      var n := |order| - 1;
      LandingsIff(session, order[..n]);
      EntryBeforeNext(session, order, n);
      NoEarlyStrayNext(session, order);
      assert order[n] in order;
      KindsExclude(session, order[n].key);
    }
  }

  lemma NoEntryBefore(session: Session, order: seq<Listed>)
    ensures !EntryBefore(session, order, 0)
  {
  }

  lemma EntryBeforeNext(session: Session, order: seq<Listed>, n: nat)
    requires n < |order|
    ensures EntryBefore(session, order[..n], n) <==> EntryBefore(session, order, n)
    ensures EntryBefore(session, order, n + 1) <==> EntryBefore(session, order, n) || !Survives(session, order[n].key)
  {
    assert forall j | 0 <= j < n :: order[..n][j] == order[j];
  }

  lemma NoEarlyStrayNext(session: Session, order: seq<Listed>)
    requires order != []
    ensures var n := |order| - 1;
            NoEarlyStray(session, order) <==>
              NoEarlyStray(session, order[..n]) && (Stray(session, order[n]) ==> EntryBefore(session, order, n))
  {
    hide Stray, EntryBefore;
    var n := |order| - 1;
    var init := order[..n];
    forall i | 0 <= i < n
      ensures init[i] == order[i] && (EntryBefore(session, init, i) <==> EntryBefore(session, order, i))
    {
      EntryBeforeNext(session, order, i);
      EntryBeforeNext(session, init, i);
      assert order[..i] == init[..i];
    }
  }

  // ---- the gateway that an entry ends with ----

  /** Only survivors are listed after entry `i`, up to `m`. */
  predicate OnlySurvivors(session: Session, order: seq<Listed>, i: nat, m: nat)
    requires i <= m < |order|
  {
    forall l | i < l <= m :: Survives(session, order[l].key)
  }

  /** Among the first `n` entries, the one whose address leaf entry `i` ends with. */
  function EndIndex(session: Session, order: seq<Listed>, i: nat, n: nat): (j: nat)
    requires i < n <= |order|
    ensures i <= j < n
  {
    if n == i + 1 then i
    else if OnlySurvivors(session, order, i, n - 1) && Gateway(session, order[n - 1]).Some? then n - 1
    else EndIndex(session, order, i, n - 1)
  }

  /** Entry `j` is the last stray survivor with an address between entry `i` and the next
      created or deleted entry, or `i` itself if there is none. */
  ghost predicate EndsWith(session: Session, order: seq<Listed>, i: nat, j: nat, n: nat)
    requires i <= j < n <= |order|
  {
    && OnlySurvivors(session, order, i, j) && (j == i || Gateway(session, order[j]).Some?)
    && forall m | j < m < n && OnlySurvivors(session, order, i, m) :: Gateway(session, order[m]).None?
  }

  lemma {:induction false} EndIndexIff(session: Session, order: seq<Listed>, i: nat, j: nat, n: nat)
    requires i <= j < n <= |order|
    ensures EndsWith(session, order, i, j, n) <==> j == EndIndex(session, order, i, n)
    decreases n
  {
    hide Survives, Gateway;
    if n > i + 1 {
      var e := EndIndex(session, order, i, n - 1);
      EndIndexIff(session, order, i, e, n - 1);
      if j < n - 1 {
        EndIndexIff(session, order, i, j, n - 1);
      }
    }
  }

  function EndGateway(session: Session, order: seq<Listed>, i: nat): Option<NlAddr>
    requires i < |order|
  {
    Gateway(session, order[EndIndex(session, order, i, |order|)])
  }

  // ---- what the kernel is asked for ----

  function LandedRoutes(landings: seq<Landing>, k: NlAddr): seq<Installed> {
    if landings == [] then [] else
      var l := landings[|landings| - 1];
      LandedRoutes(landings[..|landings| - 1], k)
      + if l.created && l.key == k then [Installed(0, HopsFor(l.gateway))] else []
  }

  function LandedRemovals(landings: seq<Landing>, k: NlAddr): nat {
    if landings == [] then 0 else
      var l := landings[|landings| - 1];
      LandedRemovals(landings[..|landings| - 1], k) + if !l.created && l.key == k then 1 else 0
  }

  lemma {:induction false} BlocksAsk(blocks: seq<Block>, landings: seq<Landing>, k: NlAddr)
    requires AllLand(blocks, landings)
    ensures AllBlocksPlannable(blocks)
    ensures NewRoutes(blocks, k) == LandedRoutes(landings, k) && Removals(blocks, k) == LandedRemovals(landings, k)
  {
    forall b | b in blocks
      ensures Plannable(b.route)
    {
      var i :| 0 <= i < |blocks| && blocks[i] == b;
      assert Lands(blocks[i], landings[i]);
    }
    if blocks != [] {
      var n := |blocks| - 1;
      BlocksAsk(blocks[..n], landings[..n], k);
      assert Lands(blocks[n], landings[n]);
    }
  }

  lemma LandedSnoc(landings: seq<Landing>, l: Landing, k: NlAddr)
    ensures LandedRoutes(landings + [l], k) ==
            LandedRoutes(landings, k) + if l.created && l.key == k then [Installed(0, HopsFor(l.gateway))] else []
    ensures LandedRemovals(landings + [l], k) == LandedRemovals(landings, k) + if !l.created && l.key == k then 1 else 0
  {
    assert (landings + [l])[..|landings|] == landings;
  }

  /** A stray gateway changes what is asked, but not of which prefix and how often. */
  lemma LandedWithLast(landings: seq<Landing>, gateway: Option<NlAddr>, k: NlAddr)
    ensures var edited := WithLast(landings, gateway);
            && |LandedRoutes(edited, k)| == |LandedRoutes(landings, k)|
            && LandedRemovals(edited, k) == LandedRemovals(landings, k)
    ensures landings != [] && gateway.Some? && |LandedRoutes(landings, k)| == 1 ==>
              var last := landings[|landings| - 1];
              LandedRoutes(WithLast(landings, gateway), k) ==
              if last.created && last.key == k then [Installed(0, HopsFor(gateway))] else LandedRoutes(landings, k)
  {
    if landings != [] && gateway.Some? {
      var n := |landings| - 1;
      assert WithLast(landings, gateway)[..n] == landings[..n];
    }
  }

  lemma LandingsNext(session: Session, order: seq<Listed>, n: nat)
    requires 0 < n <= |order| && Landings(session, order[..n]).Some?
    ensures Landings(session, order[..n - 1]).Some?
    ensures Landings(session, order[..n]) == Land(session, Landings(session, order[..n - 1]).value, order[n - 1])
  {
    assert order[..n][..n - 1] == order[..n - 1];
  }

  lemma {:induction false} LandingCounts(session: Session, order: seq<Listed>, n: nat, k: NlAddr)
    requires n <= |order| && Distinct(Keys(order)) && AllChanged(session, order) && Landings(session, order[..n]).Some?
    ensures var landings := Landings(session, order[..n]).value;
            && |LandedRoutes(landings, k)| == (if k in Keys(order)[..n] && IsCreated(session, k) then 1 else 0)
            && LandedRemovals(landings, k) == (if k in Keys(order)[..n] && IsDeleted(session, k) then 1 else 0)
  {
    hide LandedRoutes, LandedRemovals, Gateway, Changed, WithLast;
    if n > 0 {
      var l := order[n - 1];
      LandingsNext(session, order, n);
      LandingCounts(session, order, n - 1, k);
      KeysNext(order, n);
      assert l in order;
      KindsExclude(session, l.key);
      hide Landings, Distinct, AllChanged;
      var before := Landings(session, order[..n - 1]).value;
      LandedSnoc(before, Landing(IsCreated(session, l.key), l.key, Gateway(session, l)), k);
      LandedWithLast(before, Gateway(session, l), k);
    } else {
      NothingLanded(k);
    }
  }

  lemma KeysNext(order: seq<Listed>, n: nat)
    requires 0 < n <= |order| && Distinct(Keys(order))
    ensures Keys(order)[..n] == Keys(order)[..n - 1] + [order[n - 1].key]
    ensures order[n - 1].key !in Keys(order)[..n - 1]
  {
  }

  lemma NothingLanded(k: NlAddr)
    ensures LandedRoutes([], k) == [] && LandedRemovals([], k) == 0
  {
  }

  /** The last landing belongs to the last created or deleted entry. */
  lemma {:induction false} LastLanding(session: Session, order: seq<Listed>, n: nat) returns (p: nat)
    requires 0 < n <= |order| && AllChanged(session, order)
    requires Landings(session, order[..n]).Some? && Landings(session, order[..n]).value != []
    ensures p < n && !Survives(session, order[p].key) && OnlySurvivors(session, order, p, n - 1)
    ensures var landings := Landings(session, order[..n]).value;
            var last := landings[|landings| - 1];
            last.key == order[p].key && last.created == IsCreated(session, order[p].key)
  {
    var l := order[n - 1];
    LandingsNext(session, order, n);
    assert l in order;
    KindsExclude(session, l.key);
    var before := Landings(session, order[..n - 1]).value;
    if Survives(session, l.key) {
      hide Landings, Gateway;
      assert before != [];
      assert n > 1 by {
        if n == 1 {
          NoLandings(session, order);
        }
      }
      p := LastLanding(session, order, n - 1);
    } else {
      p := n - 1;
    }
  }

  lemma NoLandings(session: Session, order: seq<Listed>)
    ensures Landings(session, order[..0]) == Some([])
  {
  }

  /** A created entry is asked for with the gateway that it ends with. */
  lemma {:induction false} LandedAt(session: Session, order: seq<Listed>, i: nat, n: nat)
    requires i < n <= |order| && Distinct(Keys(order)) && AllChanged(session, order)
    requires Landings(session, order[..n]).Some? && IsCreated(session, order[i].key)
    ensures LandedRoutes(Landings(session, order[..n]).value, order[i].key) ==
            [Installed(0, HopsFor(Gateway(session, order[EndIndex(session, order, i, n)])))]
  {
    var l, k := order[n - 1], order[i].key;
    LandingsNext(session, order, n);
    LandingCounts(session, order, n - 1, k);
    assert l in order && order[i] in order;
    KindsExclude(session, l.key);
    KindsExclude(session, k);
    var before := Landings(session, order[..n - 1]).value;
    hide LandedRoutes, LandedRemovals, Landings, Gateway, Changed, AllChanged;
    LandedSnoc(before, Landing(IsCreated(session, l.key), l.key, Gateway(session, l)), k);
    if n == i + 1 {
      assert k !in Keys(order)[..i];
    } else {
      LandedAt(session, order, i, n - 1);
      assert Keys(order)[i] != Keys(order)[n - 1];
      if Survives(session, l.key) {
        LandedWithLast(before, Gateway(session, l), k);
        if before != [] {
          var p := LastLanding(session, order, n - 1);
          SameLast(session, order, i, p, n);
        } else {
          NothingLanded(k);
        }
      } else {
        assert !OnlySurvivors(session, order, i, n - 1);
      }
    }
  }

  /** The last landing is that of `i` exactly when only survivors follow it. */
  lemma SameLast(session: Session, order: seq<Listed>, i: nat, p: nat, n: nat)
    requires i < n - 1 && p < n - 1 && n <= |order| && Distinct(Keys(order))
    requires !Survives(session, order[i].key) && !Survives(session, order[p].key)
    requires OnlySurvivors(session, order, p, n - 2) && Survives(session, order[n - 1].key)
    ensures order[p].key == order[i].key <==> OnlySurvivors(session, order, i, n - 1)
  {
    hide Survives;
    if i < p {
      assert Keys(order)[i] != Keys(order)[p];
    }
  }

  // ---- the callback on a diff ----

  /** Interface indexes by interface name. */
  type Indexes = string -> int

  function HopRequest(hop: Hop, indexes: Indexes): RequestHop {
    RequestHop(if hop.outgoingInterface.Some? then Some(indexes(hop.outgoingInterface.value)) else None, hop.address)
  }

  function HopRequests(hops: seq<(string, Hop)>, indexes: Indexes): (r: seq<RequestHop>)
    ensures |r| == |hops| && forall i | 0 <= i < |r| :: r[i] == HopRequest(hops[i].1, indexes)
  {
    seq(|hops|, i requires 0 <= i < |hops| => HopRequest(hops[i].1, indexes))
  }

  /** The next hops that the configuration means. */
  function Wanted(choice: HopChoice, indexes: Indexes): Hops {
    match choice
    case OneHop(hop) => Unicast([HopRequest(hop, indexes)])
    case SpecialHop(kind) => SpecialRoute(kind)
    case HopList(hops) => Unicast(HopRequests(hops, indexes))
  }

  function Own(config: Config, k: NlAddr, indexes: Indexes): seq<Installed> {
    if k in config then [Installed(0, Wanted(config[k].nextHop, indexes))] else []
  }

  /** The kernel holds each configured route, before whatever else `rest` has for its prefix. */
  ghost predicate Mirrors(table: Table, config: Config, rest: Table, indexes: Indexes) {
    forall k :: At(table, k) == Own(config, k, indexes) + At(rest, k)
  }

  /** Every created route, as it ends, is usable and not among the rest already. */
  ghost predicate AllAddable(session: Session, order: seq<Listed>, rest: Table, usable: Usable) {
    forall i | 0 <= i < |order| && IsCreated(session, order[i].key) ::
      var hops := HopsFor(EndGateway(session, order, i));
      usable(hops) && Installed(0, hops) !in At(rest, order[i].key)
  }

  /** No survivor has other next hops than before, and every created entry ends with the
      ones that it wants. */
  ghost predicate Faithful(session: Session, order: seq<Listed>, indexes: Indexes) {
    && (forall k | k in session.before && k in session.after ::
          Wanted(session.before[k].nextHop, indexes) == Wanted(session.after[k].nextHop, indexes))
    && (forall i | 0 <= i < |order| && IsCreated(session, order[i].key) ::
          HopsFor(EndGateway(session, order, i)) == Wanted(session.after[order[i].key].nextHop, indexes))
  }

  lemma OneKey(table: Table, session: Session, order: seq<Listed>, blocks: seq<Block>, rest: Table, indexes: Indexes,
      k: NlAddr)
    requires ListsChanged(session, order) && Landings(session, order).Some?
    requires AllBlocksPlannable(blocks) && AllLand(blocks, Landings(session, order).value)
    requires Mirrors(table, session.before, rest, indexes)
    ensures NewRoutes(blocks, k) == LandedRoutes(Landings(session, order).value, k)
    ensures |NewRoutes(blocks, k)| == (if IsCreated(session, k) then 1 else 0)
    ensures Removals(blocks, k) == (if IsDeleted(session, k) then 1 else 0)
    ensures At(table, k) == Own(session.before, k, indexes) + At(rest, k)
  {
    ListsOnlyChanged(session, order);
    assert order[..|order|] == order && Keys(order)[..|order|] == Keys(order);
    hide AllChanged, NewRoutes, Removals, LandedRoutes, LandedRemovals, Landings, AllLand, Own, At;
    BlocksAsk(blocks, Landings(session, order).value, k);
    LandingCounts(session, order, |order|, k);
  }

  lemma OneEntry(session: Session, order: seq<Listed>, i: nat)
    requires ListsChanged(session, order) && Landings(session, order).Some?
    requires i < |order| && IsCreated(session, order[i].key)
    ensures LandedRoutes(Landings(session, order).value, order[i].key) ==
            [Installed(0, HopsFor(EndGateway(session, order, i)))]
  {
    ListsOnlyChanged(session, order);
    assert order[..|order|] == order;
    LandedAt(session, order, i, |order|);
  }

  /** Where a created entry is listed. */
  lemma ListedAt(session: Session, order: seq<Listed>, k: NlAddr) returns (i: nat)
    requires ListsChanged(session, order) && IsCreated(session, k)
    ensures i < |order| && order[i].key == k
  {
    assert Changed(session, k);
    i :| 0 <= i < |order| && Keys(order)[i] == k;
  }

  lemma AcceptedIff(table: Table, session: Session, order: seq<Listed>, blocks: seq<Block>, rest: Table,
      indexes: Indexes, usable: Usable)
    requires ListsChanged(session, order) && Landings(session, order).Some?
    requires AllBlocksPlannable(blocks) && AllLand(blocks, Landings(session, order).value)
    requires Mirrors(table, session.before, rest, indexes)
    ensures Accepted(usable, table, blocks) <==> AllAddable(session, order, rest, usable)
  {
    hide NewRoutes, Removals, Landings, LandedRoutes, Mirrors, ListsChanged, AllLand, At, AllBlocksPlannable,
      EndGateway;
    forall k
      ensures Removals(blocks, k) <= |NewRoutes(blocks, k)| + |At(table, k)|
      ensures IsCreated(session, k) ==> At(table, k) == At(rest, k)
      ensures !IsCreated(session, k) ==>
              NewRoutes(blocks, k) == [] && Addable(usable, NewRoutes(blocks, k), At(table, k))
    {
      OneKey(table, session, order, blocks, rest, indexes, k);
      NothingToAdd(usable, At(table, k));
    }
    forall i | 0 <= i < |order| && IsCreated(session, order[i].key)
      ensures Addable(usable, NewRoutes(blocks, order[i].key), At(table, order[i].key)) <==>
              var hops := HopsFor(EndGateway(session, order, i));
              usable(hops) && Installed(0, hops) !in At(rest, order[i].key)
    {
      OneKey(table, session, order, blocks, rest, indexes, order[i].key);
      OneEntry(session, order, i);
    }
    if AllAddable(session, order, rest, usable) {
      forall k | IsCreated(session, k)
        ensures Addable(usable, NewRoutes(blocks, k), At(table, k))
      {
        var i := ListedAt(session, order, k);
      }
    }
  }

  lemma OneKeyAfter(table: Table, t: Table, session: Session, order: seq<Listed>, blocks: seq<Block>, rest: Table,
      indexes: Indexes, k: NlAddr)
    requires ListsChanged(session, order) && Landings(session, order).Some?
    requires AllBlocksPlannable(blocks) && AllLand(blocks, Landings(session, order).value)
    requires Mirrors(table, session.before, rest, indexes) && At(t, k) == Expected(table, blocks, k)
    ensures IsCreated(session, k) ==> At(t, k) == LandedRoutes(Landings(session, order).value, k) + At(rest, k)
    ensures IsDeleted(session, k) ==> At(t, k) == At(rest, k)
    ensures !IsCreated(session, k) && !IsDeleted(session, k) ==>
            At(t, k) == Own(session.before, k, indexes) + At(rest, k)
  {
    OneKey(table, session, order, blocks, rest, indexes, k);
    hide NewRoutes, Removals, Landings, LandedRoutes, ListsChanged, AllLand, AllBlocksPlannable, Mirrors, Wanted;
  }

  lemma MirroredIff(table: Table, t: Table, session: Session, order: seq<Listed>, blocks: seq<Block>, rest: Table,
      indexes: Indexes)
    requires ListsChanged(session, order) && Landings(session, order).Some?
    requires AllBlocksPlannable(blocks) && AllLand(blocks, Landings(session, order).value)
    requires Mirrors(table, session.before, rest, indexes) && forall k :: At(t, k) == Expected(table, blocks, k)
    ensures Mirrors(t, session.after, rest, indexes) <==> Faithful(session, order, indexes)
  {
    hide Expected, LandedRoutes, Landings, AllLand, AllBlocksPlannable, At, ListsChanged, Wanted, EndGateway, HopsFor;
    if Faithful(session, order, indexes) {
      forall k
        ensures At(t, k) == Own(session.after, k, indexes) + At(rest, k)
      {
        OneKeyAfter(table, t, session, order, blocks, rest, indexes, k);
        if IsCreated(session, k) {
          var i := ListedAt(session, order, k);
          OneEntry(session, order, i);
        }
      }
    }
    if Mirrors(t, session.after, rest, indexes) {
      forall k | k in session.before && k in session.after
        ensures Wanted(session.before[k].nextHop, indexes) == Wanted(session.after[k].nextHop, indexes)
      {
        OneKeyAfter(table, t, session, order, blocks, rest, indexes, k);
        SameFirst(Own(session.before, k, indexes)[0], Own(session.after, k, indexes)[0], At(rest, k));
      }
      forall i | 0 <= i < |order| && IsCreated(session, order[i].key)
        ensures HopsFor(EndGateway(session, order, i)) == Wanted(session.after[order[i].key].nextHop, indexes)
      {
        var k := order[i].key;
        OneKeyAfter(table, t, session, order, blocks, rest, indexes, k);
        OneEntry(session, order, i);
        SameFirst(LandedRoutes(Landings(session, order).value, k)[0], Own(session.after, k, indexes)[0], At(rest, k));
      }
    }
  }

  lemma SameFirst<T>(x: T, y: T, s: seq<T>)
    requires [x] + s == [y] + s
    ensures x == y
  {
    assert ([x] + s)[0] == x && ([y] + s)[0] == y;
  }

  /** One diff, listed in any order of its entries and address leaves and with any other
      nodes in between. The callback succeeds exactly when every stray leaf has an entry
      before it and every created route, as it ends, can be added. On success the kernel goes
      from the old configuration to the new one, keeping the rest, exactly when no survivor
      has other next hops and every created entry ends with the ones that it wants. */
  lemma DiffReconciles(answer: Answer, usable: Usable, table: Table, session: Session, order: seq<Listed>,
      events: seq<Event>, rest: Table, indexes: Indexes, text: Printer, parse: AddrParser, connected: bool)
    requires WellBehaved(answer, usable) && Readable(parse, text, session) && IsStream(events, session, order, text)
    requires Mirrors(table, session.before, rest, indexes)
    ensures var o := ApplyChanges(answer, table, events, parse, connected);
            && (o.error == 0 <==> connected && NoEarlyStray(session, order) && AllAddable(session, order, rest, usable))
            && (o.error == 0 ==> (Mirrors(o.table, session.after, rest, indexes) <==>
              Faithful(session, order, indexes)))
  {
    hide Blocks, Readable, WellBehaved, Mirrors, Landings, DiffEvents, Essential, NoEarlyStray, Fold, Run, AllAddable,
      Faithful;
    NoiseIsIgnored(events, parse);
    NoiseIsIgnored(DiffEvents(session, order, text), parse);
    ListsOnlyChanged(session, order);
    DiffLands(session, order, text, parse);
    LandingsIff(session, order);
    FoldIsGather(events, parse);
    if Blocks(events, parse).Some? {
      ChangesApplied(answer, usable, table, events, parse, connected);
      var blocks := Blocks(events, parse).value;
      AcceptedIff(table, session, order, blocks, rest, indexes, usable);
      hide ApplyChanges, Accepted;
      var o := ApplyChanges(answer, table, events, parse, connected);
      if o.error == 0 {
        MirroredIff(table, o.table, session, order, blocks, rest, indexes);
      }
    }
  }

  // ---- which next hops the switch can carry ----

  /** At most one next hop, and that one an address and nothing else. */
  predicate Carriable(choice: HopChoice) {
    match choice
    case OneHop(hop) => hop.outgoingInterface.None? && hop.address.Some?
    case SpecialHop(_) => false
    case HopList(hops) =>
      hops == [] || (|hops| == 1 && hops[0].1.outgoingInterface.None? && hops[0].1.address.Some?)
  }

  lemma {:induction false} AllMovedAlike(session: Session, k: NlAddr, ids: seq<LeafId>, address: NlAddr)
    requires ids != [] && forall id | id in ids :: Moved(session, k, id) == Some(address)
    ensures LastMoved(session, k, ids) == Some(address)
  {
    assert ids[|ids| - 1] in ids;
  }

  /** What a created entry asks for by its own leaves is what it wants exactly when the
      switch can carry its next hops. */
  lemma CarriedIff(session: Session, l: Listed, indexes: Indexes)
    requires ListsLeaves(session, l) && IsCreated(session, l.key)
    ensures HopsFor(Gateway(session, l)) == Wanted(session.after[l.key].nextHop, indexes) <==>
            Carriable(session.after[l.key].nextHop)
  {
    var choice := session.after[l.key].nextHop;
    assert l.ids != [] ==> l.ids[0] in l.ids;
    forall id
      ensures Moved(session, l.key, id) == AddressAt(choice, id)
      ensures id in l.ids <==> AddressAt(choice, id).Some?
    {
    }
    if Carriable(choice) {
      if choice == HopList([]) {
        assert forall id :: id !in l.ids;
      } else {
        var id, address := OnlyAddress(choice);
        assert id in l.ids;
        AllMovedAlike(session, l.key, l.ids, address);
      }
    }
  }

  lemma OnlyAddress(choice: HopChoice) returns (id: LeafId, address: NlAddr)
    requires Carriable(choice) && choice != HopList([])
    ensures forall other :: AddressAt(choice, other) == if other == id then Some(address) else None
    ensures choice == OneHop(Hop(None, Some(address))) ||
            exists index :: choice == HopList([(index, Hop(None, Some(address)))])
  {
    if choice.OneHop? {
      id, address := Alone, choice.hop.address.value;
    } else {
      var index := choice.hops[0].0;
      id, address := Indexed(index), choice.hops[0].1.address.value;
      assert choice == HopList([(index, Hop(None, Some(address)))]);
      assert choice.hops[1..] == [];
      forall other
        ensures AddressAt(choice, other) == if other == id then Some(address) else None
      {
        if other.Indexed? {
          assert FindAddress(choice.hops[1..], other.index) == None;
        }
      }
    }
  }

  /** No survivor has an address leaf that comes or goes. */
  ghost predicate NoStrayAddress(session: Session, order: seq<Listed>) {
    forall l | l in order && Survives(session, l.key) :: Gateway(session, l).None?
  }

  lemma OwnGateway(session: Session, order: seq<Listed>, i: nat)
    requires i < |order| && NoStrayAddress(session, order)
    ensures EndGateway(session, order, i) == Gateway(session, order[i])
  {
    hide Survives, Gateway;
    var j := EndIndex(session, order, i, |order|);
    EndIndexIff(session, order, i, j, |order|);
    assert order[j] in order;
  }

  /** Without stray addresses, a diff that succeeds is followed exactly when the survivors
      keep their next hops and the switch can carry those of every created entry. */
  lemma FaithfulIff(session: Session, order: seq<Listed>, indexes: Indexes)
    requires ListsChanged(session, order) && NoStrayAddress(session, order)
    ensures Faithful(session, order, indexes) <==>
            && (forall k | k in session.before && k in session.after ::
                  Wanted(session.before[k].nextHop, indexes) == Wanted(session.after[k].nextHop, indexes))
            && (forall k | IsCreated(session, k) :: Carriable(session.after[k].nextHop))
  {
    hide Wanted, Carriable, EndGateway, Gateway, HopsFor, ListsLeaves;
    forall i | 0 <= i < |order| && IsCreated(session, order[i].key)
      ensures HopsFor(EndGateway(session, order, i)) == Wanted(session.after[order[i].key].nextHop, indexes) <==>
              Carriable(session.after[order[i].key].nextHop)
    {
      OwnGateway(session, order, i);
      assert order[i] in order;
      CarriedIff(session, order[i], indexes);
    }
    if forall i | 0 <= i < |order| && IsCreated(session, order[i].key) ::
      Carriable(session.after[order[i].key].nextHop) {
      forall k | IsCreated(session, k)
        ensures Carriable(session.after[k].nextHop)
      {
        var i := ListedAt(session, order, k);
      }
    }
  }

  // ---- diffs that go wrong ----

  /** A new entry `a` with a next hop, and a survivor `b` that gives up its own for an interface. */
  function MixedSession(a: NlAddr, b: NlAddr, ga: NlAddr, gb: NlAddr): Session {
    var was := RouteConfig(None, OneHop(Hop(None, Some(gb))));
    var now := RouteConfig(None, OneHop(Hop(Some("eth0"), None)));
    Session(map[b := was], map[a := RouteConfig(None, OneHop(Hop(None, Some(ga)))), b := now])
  }

  lemma AloneOnly(session: Session, k: NlAddr)
    requires k in session.before ==> session.before[k].nextHop.OneHop?
    requires k in session.after ==> session.after[k].nextHop.OneHop?
    requires AddressIn(session.before, k, Alone) != AddressIn(session.after, k, Alone)
    ensures ListsLeaves(session, Listed(k, [Alone]))
    ensures Gateway(session, Listed(k, [Alone])) == Moved(session, k, Alone)
  {
    assert [Alone][..0] == [];
    assert LastMoved(session, k, []) == None;
  }

  lemma MixedLandings(a: NlAddr, b: NlAddr, ga: NlAddr, gb: NlAddr)
    requires a != b
    ensures var session := MixedSession(a, b, ga, gb);
            var la, lb := Listed(a, [Alone]), Listed(b, [Alone]);
            && ListsChanged(session, [la, lb]) && ListsChanged(session, [lb, la])
            && NoEarlyStray(session, [la, lb]) && !NoEarlyStray(session, [lb, la])
            && EndGateway(session, [la, lb], 0) == Some(gb)
  {
    var session := MixedSession(a, b, ga, gb);
    var la, lb := Listed(a, [Alone]), Listed(b, [Alone]);
    AloneOnly(session, a);
    AloneOnly(session, b);
    assert session.before[b] != session.after[b];
    hide ListsLeaves, Gateway;
    assert Keys([la, lb]) == [a, b] && Keys([lb, la]) == [b, a];
    assert IsCreated(session, a) && Survives(session, b) && Stray(session, lb) && !Stray(session, la);
    var order, swapped := [la, lb], [lb, la];
    assert !Survives(session, order[0].key);
    assert EntryBefore(session, order, 1) && !EntryBefore(session, swapped, 0);
    assert Stray(session, swapped[0]);
    assert OnlySurvivors(session, order, 0, 1) && order[1] == lb;
    assert EndIndex(session, order, 0, 2) == 1;
  }

  /** With `a` listed first the callback succeeds, gives the old next hop of `b` to `a` and
      leaves `b` as it was; with `b` listed first it fails. */
  lemma StrayGatewayExample(answer: Answer, usable: Usable, a: NlAddr, b: NlAddr, ga: NlAddr, gb: NlAddr, text: Printer,
      parse: AddrParser)
    requires WellBehaved(answer, usable) && usable(HopsFor(Some(gb))) && a != b
    requires Readable(parse, text, MixedSession(a, b, ga, gb))
    ensures var session := MixedSession(a, b, ga, gb);
            var la, lb := Listed(a, [Alone]), Listed(b, [Alone]);
            var table: Table := map[b := [Installed(0, HopsFor(Some(gb)))]];
            var o := ApplyChanges(answer, table, DiffEvents(session, [la, lb], text), parse, true);
            && o.error == 0
            && At(o.table, a) == [Installed(0, HopsFor(Some(gb)))]
              && At(o.table, b) == [Installed(0, HopsFor(Some(gb)))]
            && ApplyChanges(answer, table, DiffEvents(session, [lb, la], text), parse, true).error != 0
  {
    var session := MixedSession(a, b, ga, gb);
    var order, swapped := [Listed(a, [Alone]), Listed(b, [Alone])], [Listed(b, [Alone]), Listed(a, [Alone])];
    var table: Table := map[b := [Installed(0, HopsFor(Some(gb)))]];
    var indexes: Indexes := _ => 1;
    MixedLandings(a, b, ga, gb);
    assert Mirrors(table, session.before, map[], indexes);
    assert forall i | 0 <= i < 2 && IsCreated(session, order[i].key) :: i == 0;
    assert AllAddable(session, order, map[], usable);
    hide DiffEvents, Essential, ApplyChanges, Blocks, ListsChanged, WellBehaved, Readable, EndGateway, Mirrors,
      AllAddable, NoEarlyStray;
    DiffReconciles(answer, usable, table, session, order, DiffEvents(session, order, text), map[], indexes, text,
      parse, true);
    DiffReconciles(answer, usable, table, session, swapped, DiffEvents(session, swapped, text), map[], indexes, text,
      parse, true);
    AfterDiff(answer, usable, table, session, order, map[], indexes, text, parse, a);
    AfterDiff(answer, usable, table, session, order, map[], indexes, text, parse, b);
    OneEntry(session, order, 0);
  }

  /** What a prefix holds after a diff that succeeds. */
  lemma AfterDiff(answer: Answer, usable: Usable, table: Table, session: Session, order: seq<Listed>, rest: Table,
      indexes: Indexes, text: Printer, parse: AddrParser, k: NlAddr)
    requires WellBehaved(answer, usable) && Readable(parse, text, session) && ListsChanged(session, order)
    requires Mirrors(table, session.before, rest, indexes)
    requires ApplyChanges(answer, table, DiffEvents(session, order, text), parse, true).error == 0
    ensures Landings(session, order).Some?
    ensures var t := ApplyChanges(answer, table, DiffEvents(session, order, text), parse, true).table;
            At(t, k) == (if IsCreated(session, k) then LandedRoutes(Landings(session, order).value, k)
                         else if IsDeleted(session, k) then [] else Own(session.before, k, indexes)) + At(rest, k)
  {
    hide DiffEvents, Blocks, WellBehaved, Readable, Landings, Mirrors, Fold, Run;
    var events := DiffEvents(session, order, text);
    ListsOnlyChanged(session, order);
    DiffLands(session, order, text, parse);
    FoldIsGather(events, parse);
    assert Blocks(events, parse).Some?;
    ChangesApplied(answer, usable, table, events, parse, true);
    var t := ApplyChanges(answer, table, events, parse, true).table;
    hide ApplyChanges, Accepted;
    OneKeyAfter(table, t, session, order, Blocks(events, parse).value, rest, indexes, k);
  }

  /** A new entry with two next hops in a list. */
  function TwoHopSession(a: NlAddr, first: NlAddr, second: NlAddr): Session {
    Session(map[], map[a := RouteConfig(None,
      HopList([("1", Hop(None, Some(first))), ("2", Hop(None, Some(second)))]))])
  }

  lemma TwoHopListing(a: NlAddr, first: NlAddr, second: NlAddr)
    ensures var session := TwoHopSession(a, first, second);
            var order := [Listed(a, [Indexed("1"), Indexed("2")])];
            && ListsChanged(session, order) && NoEarlyStray(session, order)
              && EndGateway(session, order, 0) == Some(second)
  {
    var session := TwoHopSession(a, first, second);
    var one, two := ("1", Hop(None, Some(first))), ("2", Hop(None, Some(second)));
    var l := Listed(a, [Indexed("1"), Indexed("2")]);
    assert "1"[0] == '1' && "2"[0] == '2';
    assert [one, two][1..] == [two] && [two][1..] == [];
    forall id
      ensures AddressIn(session.after, a, id) ==
              if id == Indexed("1") then Some(first) else if id == Indexed("2") then Some(second) else None
      ensures AddressIn(session.before, a, id) == None
    {
      if id.Indexed? {
        assert FindAddress([two], id.index) == if id.index == "2" then Some(second) else None;
        assert FindAddress([one, two], id.index) ==
          if id.index == "1" then Some(first) else FindAddress([two], id.index);
      }
    }
    assert ListsLeaves(session, l);
    assert Moved(session, a, Indexed("2")) == Some(second);
    hide ListsLeaves;
    assert Keys([l]) == [a] && IsCreated(session, a);
    assert EndIndex(session, [l], 0, 1) == 0;
  }

  /** The list loses its first hop: the callback succeeds and installs the second alone. */
  lemma TwoHopExample(answer: Answer, usable: Usable, a: NlAddr, first: NlAddr, second: NlAddr, indexes: Indexes,
      text: Printer, parse: AddrParser)
    requires WellBehaved(answer, usable) && usable(HopsFor(Some(second)))
    requires Readable(parse, text, TwoHopSession(a, first, second))
    ensures var session := TwoHopSession(a, first, second);
            var events := DiffEvents(session, [Listed(a, [Indexed("1"), Indexed("2")])], text);
            var o := ApplyChanges(answer, map[], events, parse, true);
            && o.error == 0 && At(o.table, a) == [Installed(0, HopsFor(Some(second)))]
            && !Mirrors(o.table, session.after, map[], indexes)
  {
    var session := TwoHopSession(a, first, second);
    var order := [Listed(a, [Indexed("1"), Indexed("2")])];
    TwoHopListing(a, first, second);
    assert Mirrors(map[], session.before, map[], indexes);
    assert AllAddable(session, order, map[], usable);
    assert IsCreated(session, a) && order[0].key == a;
    assert |Wanted(session.after[a].nextHop, indexes).hops| == 2;
    assert !Faithful(session, order, indexes);
    hide DiffEvents, Essential, ApplyChanges, Blocks, ListsChanged, WellBehaved, Readable, EndGateway, Mirrors,
      AllAddable, NoEarlyStray, Faithful;
    DiffReconciles(answer, usable, map[], session, order, DiffEvents(session, order, text), map[], indexes, text,
      parse, true);
    AfterDiff(answer, usable, map[], session, order, map[], indexes, text, parse, a);
    OneEntry(session, order, 0);
  }

  /** A created entry that ends without any address makes the callback fail on a kernel that
      has no use for a route without next hops, as Linux has none. */
  lemma AddresslessFails(answer: Answer, usable: Usable, table: Table, session: Session, order: seq<Listed>,
      events: seq<Event>, rest: Table, indexes: Indexes, text: Printer, parse: AddrParser, i: nat)
    requires WellBehaved(answer, usable) && Readable(parse, text, session) && IsStream(events, session, order, text)
    requires Mirrors(table, session.before, rest, indexes) && !usable(Unicast([]))
    requires i < |order| && IsCreated(session, order[i].key) && EndGateway(session, order, i).None?
    ensures ApplyChanges(answer, table, events, parse, true).error != 0
  {
    hide ApplyChanges, WellBehaved, Readable, IsStream, Mirrors, EndGateway;
    DiffReconciles(answer, usable, table, session, order, events, rest, indexes, text, parse, true);
  }

  // ---- whole runs ----

  /** One change of the configuration as the callback meets it. */
  datatype Diff = Diff(order: seq<Listed>, events: seq<Event>)

  ghost predicate IsHistory(configs: seq<Config>, diffs: seq<Diff>, text: Printer, parse: AddrParser) {
    && |configs| == |diffs| + 1
    && (forall i | 0 <= i < |configs| :: Canonical(parse, text, configs[i]))
    && forall i | 0 <= i < |diffs| ::
      IsStream(diffs[i].events, Session(configs[i], configs[i + 1]), diffs[i].order, text)
  }

  function RunDiffs(answer: Answer, table: Table, diffs: seq<Diff>, parse: AddrParser): Outcome {
    if diffs == [] then Outcome(table, [], 0) else
      var o := RunDiffs(answer, table, diffs[..|diffs| - 1], parse);
      Then(o, ApplyChanges(answer, o.table, diffs[|diffs| - 1].events, parse, true))
  }

  /** The caller's obligations for one change. */
  ghost predicate StepAllowed(session: Session, order: seq<Listed>, rest: Table, indexes: Indexes, usable: Usable) {
    NoEarlyStray(session, order) && AllAddable(session, order, rest, usable) && Faithful(session, order, indexes)
  }

  /** Over any run of allowed changes every callback succeeds, and the kernel ends with the
      last configuration and the rest it started with. */
  lemma {:induction false} HistoryReconciles(answer: Answer, usable: Usable, table: Table, configs: seq<Config>,
      diffs: seq<Diff>, rest: Table, indexes: Indexes, text: Printer, parse: AddrParser)
    requires WellBehaved(answer, usable) && IsHistory(configs, diffs, text, parse)
    requires Mirrors(table, configs[0], rest, indexes)
    requires forall i | 0 <= i < |diffs| ::
               StepAllowed(Session(configs[i], configs[i + 1]), diffs[i].order, rest, indexes, usable)
    ensures var o := RunDiffs(answer, table, diffs, parse);
            o.error == 0 && Mirrors(o.table, configs[|diffs|], rest, indexes)
    decreases |diffs|
  {
    hide Mirrors, ApplyChanges, Essential, WellBehaved, Canonical, Faithful, NoEarlyStray, AllAddable, ListsChanged;
    if diffs != [] {
      var n := |diffs| - 1;
      var session := Session(configs[n], configs[n + 1]);
      HistoryReconciles(answer, usable, table, configs[..n + 1], diffs[..n], rest, indexes, text, parse);
      var o := RunDiffs(answer, table, diffs[..n], parse);
      DiffReconciles(answer, usable, o.table, session, diffs[n].order, diffs[n].events, rest, indexes, text, parse,
        true);
    }
  }
}
