/** src/interfaces/src/plugin/api/interfaces/interface/ipv4/neighbor/change.c: the change
    callbacks for one neighbour, their passes, and what the passes achieve. */
module Ipv4NeighborChanges {
  import opened Wrappers
  import opened Sysrepo
  import opened Changes
  import opened ModContexts

  /** A parsed link-layer address; None of the parser is nl_addr_parse's error. */
  datatype LinkLayer = LinkLayer(text: string)

  type LinkLayerParser = string -> Option<LinkLayer>

  /** Neighbours by link and IP; the leaf is the text of the link-layer address. */
  type Config = map<AddrKey, string>

  datatype Session = Session(running: Config, candidate: Config)

  function IpLeaf(config: Config, key: AddrKey): Option<string> {
    if key in config then Some(key.ip) else None
  }

  function LinkLayerLeaf(config: Config, key: AddrKey): Option<string> {
    if key in config then Some(config[key]) else None
  }

  function IpChange(session: Session, key: AddrKey): Option<Change<string>> {
    LeafChange(key, IpLeaf(session.running, key), IpLeaf(session.candidate, key))
  }

  function LinkLayerChange(session: Session, key: AddrKey): Option<Change<string>> {
    LeafChange(key, LinkLayerLeaf(session.running, key), LinkLayerLeaf(session.candidate, key))
  }

  // ---- the kernel ----

  type Table = map<AddrKey, LinkLayer>

  datatype NeighAction =
    | Skip
    | Fail
    | Create(key: AddrKey, lladdr: LinkLayer)   // NLM_F_CREATE
    | Replace(key: AddrKey, lladdr: LinkLayer)  // NLM_F_REPLACE
    | Remove(key: AddrKey)

  /** Creating an existing neighbour is accepted without overriding it; replacing or
      deleting a missing one is refused. */
  function Perform(table: Table, action: NeighAction): (Table, int) {
    match action
    case Skip => (table, 0)
    case Fail => (table, -1)
    case Create(key, lladdr) => (if key in table then table else table[key := lladdr], 0)
    case Replace(key, lladdr) => if key in table then (table[key := lladdr], 0) else (table, -1)
    case Remove(key) => if key in table then (table - {key}, 0) else (table, -1)
  }

  function PerformAll(table: Table, actions: seq<NeighAction>): (Table, int)
    decreases |actions|
  {
    if actions == [] then (table, 0) else
      var (t, error) := Perform(table, actions[0]);
      if error != 0 then (t, error) else PerformAll(t, actions[1..])
  }

  lemma {:induction false} PerformSplit(table: Table, a: seq<NeighAction>, b: seq<NeighAction>)
    ensures var (t, error) := PerformAll(table, a);
            PerformAll(table, a + b) == if error != 0 then (t, error) else PerformAll(t, b)
    decreases |a|
  {
    if a == [] {
      assert a + b == b;
    } else {
      assert (a + b)[0] == a[0] && (a + b)[1..] == a[1..] + b;
      PerformSplit(Perform(table, a[0]).0, a[1..], b);
    }
  }

  class NeighborKernel {
    var table: Table

    constructor (table: Table)
      ensures this.table == table
    {
      this.table := table;
    }

    method Submit(action: NeighAction) returns (error: int)
      modifies this
      ensures (table, error) == Perform(old(table), action)
    {
      var (t, rc) := Perform(table, action);
      table, error := t, rc;
    }
  }

  // ---- what each callback asks of the kernel ----

  function IpAction(links: set<string>, session: Session, ev: Change<string>, parse: LinkLayerParser): NeighAction {
    if ev.key.link !in links then Fail
    else match ev.op
      case Created =>
        (match LinkLayerChange(session, ev.key)
         case Some(c) => if parse(c.value).Some? then Create(ev.key, parse(c.value).value) else Fail
         case None => Fail)
      case Modified => Fail
      case Deleted => Remove(ev.key)
      case Moved => Skip
  }

  function LinkLayerAction(links: set<string>, ev: Change<string>, parse: LinkLayerParser): NeighAction {
    if ev.key.link !in links then Fail
    else if ev.op.Modified? then
      if parse(ev.value).Some? then Replace(ev.key, parse(ev.value).value) else Fail
    else Skip
  }

  // ---- the callbacks ----

  method GetLinkLayerAddress(ctx: ModContext, ev: Change<string>) returns (error: int)
    requires ev.op.Created?
    modifies ctx`ipv4LinkLayer, ctx`ipv4LinkLayerSet
    ensures error == 0 && ctx.ipv4LinkLayerSet && ctx.ipv4LinkLayer == Some(ev.value)
  {
    ctx.ipv4LinkLayer := Some(ev.value);
    ctx.ipv4LinkLayerSet := true;
    error := 0;
  }

  /** A created neighbour has its mandatory link-layer-address leaf created with it. The
      scratch address is NULL and unset again on every return. */
  method ChangeIp(ctx: ModContext, kernel: NeighborKernel, session: Session, ev: Change<string>, parse: LinkLayerParser)
      returns (error: int)
    requires ctx.ScratchClear()
    requires ev.op.Created? ==>
              LinkLayerChange(session, ev.key).Some? && LinkLayerChange(session, ev.key).value.op.Created?
    modifies ctx`ipv4LinkLayer, ctx`ipv4LinkLayerSet, kernel
    ensures ctx.ScratchClear()
    ensures (kernel.table, error) == Perform(old(kernel.table), IpAction(ctx.links, session, ev, parse))
  {
    error := 0;
    if ev.key.link !in ctx.links {
      error := -1;
    } else {
      match ev.op
      case Created =>
        var change := LinkLayerChange(session, ev.key);
        error := GetLinkLayerAddress(ctx, change.value);
        var lladdr := parse(ctx.ipv4LinkLayer.value);
        if lladdr.None? {
          error := -1;
        } else {
          error := kernel.Submit(Create(ev.key, lladdr.value));
        }
      case Modified =>
        error := -1;
      case Deleted =>
        error := kernel.Submit(Remove(ev.key));
      case Moved =>
    }
    ctx.ipv4LinkLayer := None;
    ctx.ipv4LinkLayerSet := false;
  }

  method ChangeLinkLayerAddress(ctx: ModContext, kernel: NeighborKernel, ev: Change<string>, parse: LinkLayerParser)
      returns (error: int)
    modifies kernel
    ensures (kernel.table, error) == Perform(old(kernel.table), LinkLayerAction(ctx.links, ev, parse))
  {
    error := 0;
    if ev.key.link !in ctx.links {
      error := -1;
    } else if ev.op.Modified? {
      var lladdr := parse(ev.value);
      if lladdr.None? {
        error := -1;
      } else {
        error := kernel.Submit(Replace(ev.key, lladdr.value));
      }
    }
  }

  // ---- the passes ----

  datatype Diff = Diff(ips: seq<Change<string>>, lladdrs: seq<Change<string>>)

  ghost predicate IsDiff(session: Session, diff: Diff) {
    && Lists(diff.ips, k => IpChange(session, k))
    && Lists(diff.lladdrs, k => LinkLayerChange(session, k))
  }

  function IpActions(links: set<string>, session: Session, events: seq<Change<string>>,
      parse: LinkLayerParser): (r: seq<NeighAction>)
    ensures |r| == |events| && forall i | 0 <= i < |r| :: r[i] == IpAction(links, session, events[i], parse)
  {
    seq(|events|, i requires 0 <= i < |events| => IpAction(links, session, events[i], parse))
  }

  function LinkLayerActions(links: set<string>, events: seq<Change<string>>,
      parse: LinkLayerParser): (r: seq<NeighAction>)
    ensures |r| == |events| && forall i | 0 <= i < |r| :: r[i] == LinkLayerAction(links, events[i], parse)
  {
    seq(|events|, i requires 0 <= i < |events| => LinkLayerAction(links, events[i], parse))
  }

  function DiffActions(links: set<string>, session: Session, diff: Diff, parse: LinkLayerParser): seq<NeighAction> {
    IpActions(links, session, diff.ips, parse) + LinkLayerActions(links, diff.lladdrs, parse)
  }

  lemma CreatedNested(session: Session, ev: Change<string>)
    requires IpChange(session, ev.key) == Some(ev)
    ensures ev.op.Created? ==>
              LinkLayerChange(session, ev.key).Some? && LinkLayerChange(session, ev.key).value.op.Created?
  {
  }

  /** The IPv4 neighbour part of the change subscription: both passes, in order. */
  method ApplyDiff(ctx: ModContext, links: set<string>, kernel: NeighborKernel, session: Session, diff: Diff,
      parse: LinkLayerParser)
      returns (error: int)
    requires ctx.ScratchClear() && IsDiff(session, diff)
    modifies ctx, kernel
    ensures ctx.ScratchClear()
    ensures (kernel.table, error) == PerformAll(old(kernel.table), DiffActions(links, session, diff, parse))
  {
    hide Perform, IpAction, LinkLayerAction, IpChange;
    var first, second := IpActions(links, session, diff.ips, parse), LinkLayerActions(links, diff.lladdrs, parse);
    PerformSplit(kernel.table, first, second);
    error := 0;
    ctx.Init(links);
    ghost var whole := PerformAll(kernel.table, first);
    for i := 0 to |diff.ips|
      invariant error == 0 && ctx.ScratchClear() && ctx.links == links
      invariant whole == PerformAll(kernel.table, first[i..])
    {
      assert first[i..][0] == first[i] && first[i..][1..] == first[i + 1..];
      CreatedNested(session, diff.ips[i]);
      error := ChangeIp(ctx, kernel, session, diff.ips[i], parse);
      if error != 0 {
        break;
      }
    }
    ctx.Free();
    if error == 0 {
      error := LinkLayerPass(ctx, links, kernel, diff.lladdrs, parse);
    }
  }

  method LinkLayerPass(ctx: ModContext, links: set<string>, kernel: NeighborKernel, events: seq<Change<string>>,
      parse: LinkLayerParser)
      returns (error: int)
    requires ctx.ScratchClear()
    modifies ctx, kernel
    ensures ctx.ScratchClear()
    ensures (kernel.table, error) == PerformAll(old(kernel.table), LinkLayerActions(links, events, parse))
  {
    hide Perform, LinkLayerAction;
    var actions := LinkLayerActions(links, events, parse);
    error := 0;
    ctx.Init(links);
    ghost var whole := PerformAll(kernel.table, actions);
    for i := 0 to |events|
      invariant error == 0 && ctx.ScratchClear() && ctx.links == links
      invariant whole == PerformAll(kernel.table, actions[i..])
    {
      assert actions[i..][0] == actions[i] && actions[i..][1..] == actions[i + 1..];
      error := ChangeLinkLayerAddress(ctx, kernel, events[i], parse);
      if error != 0 {
        break;
      }
    }
    ctx.Free();
  }

  /** The ip pass comes first: when it fails, what it has done by then is all that happens,
      and no surviving neighbour has been touched. */
  lemma FailingPass(links: set<string>, session: Session, diff: Diff, table: Table, parse: LinkLayerParser)
    requires IsDiff(session, diff)
    ensures var (t, error) := PerformAll(table, DiffActions(links, session, diff, parse));
            var (t1, e1) := PerformAll(table, IpActions(links, session, diff.ips, parse));
            if e1 != 0 then
              && t == t1 && error == e1
              && forall k | k in session.running && k in session.candidate :: SameAt(t, table, k)
            else (t, error) == PerformAll(t1, LinkLayerActions(links, diff.lladdrs, parse))
  {
    hide PerformAll, Lists, SameAt;
    var first := IpActions(links, session, diff.ips, parse);
    PerformSplit(table, first, LinkLayerActions(links, diff.lladdrs, parse));
    forall k | k in session.running && k in session.candidate
      ensures SameAt(PerformAll(table, first).0, table, k)
    {
      SurvivorSkipped(links, session, diff, k, parse);
      OthersUntouched(table, first, k);
    }
  }

  predicate SameAt(a: Table, b: Table, k: AddrKey) {
    if k in a then k in b && a[k] == b[k] else k !in b
  }

  predicate IsFor(action: NeighAction, k: AddrKey) {
    !action.Skip? && !action.Fail? && action.key == k
  }

  lemma {:induction false} OthersUntouched(table: Table, actions: seq<NeighAction>, k: AddrKey)
    requires forall action | action in actions :: !IsFor(action, k)
    ensures SameAt(PerformAll(table, actions).0, table, k)
    decreases |actions|
  {
    if actions != [] {
      assert !IsFor(actions[0], k);
      assert SameAt(Perform(table, actions[0]).0, table, k);
      OthersUntouched(Perform(table, actions[0]).0, actions[1..], k);
    }
  }

  lemma SurvivorSkipped(links: set<string>, session: Session, diff: Diff, k: AddrKey, parse: LinkLayerParser)
    requires IsDiff(session, diff) && k in session.running && k in session.candidate
    ensures forall action | action in IpActions(links, session, diff.ips, parse) :: !IsFor(action, k)
  {
  }

  // ---- what the passes achieve ----

  ghost predicate Parses(config: Config, parse: LinkLayerParser) {
    forall k | k in config :: parse(config[k]).Some?
  }

  /** The table a configuration stands for. */
  function Image(config: Config, parse: LinkLayerParser): Table
    requires Parses(config, parse)
  {
    map k | k in config :: parse(config[k]).value
  }

  predicate Changed(session: Session, k: AddrKey) {
    LinkLayerLeaf(session.running, k) != LinkLayerLeaf(session.candidate, k)
  }

  function Wanted(session: Session, k: AddrKey, parse: LinkLayerParser): NeighAction
    requires Parses(session.candidate, parse)
  {
    if k !in session.running && k in session.candidate then Create(k, parse(session.candidate[k]).value)
    else if k in session.running && k !in session.candidate then Remove(k)
    else if k in session.running && session.running[k] != session.candidate[k] then
      Replace(k, parse(session.candidate[k]).value)
    else Skip
  }

  predicate Active(action: NeighAction) {
    action.Create? || action.Replace? || action.Remove?
  }

  ghost predicate DistinctKeys(actions: seq<NeighAction>) {
    forall i, j | 0 <= i < j < |actions| && Active(actions[i]) && Active(actions[j]) :: actions[i].key != actions[j].key
  }

  /** The actions still to be done are wanted ones, one per key, each for a key that the
      table has unless it is a creation. */
  ghost predicate Pending(actions: seq<NeighAction>, session: Session, table: Table, parse: LinkLayerParser)
    requires Parses(session.candidate, parse)
  {
    && (forall i | 0 <= i < |actions| ::
      actions[i] == Skip || (Active(actions[i]) && actions[i] == Wanted(session, actions[i].key, parse)))
    && DistinctKeys(actions)
    && (forall i | 0 <= i < |actions| && (actions[i].Replace? || actions[i].Remove?) :: actions[i].key in table)
  }

  function After(table: Table, action: NeighAction): Table {
    Perform(table, action).0
  }

  ghost predicate AgreeAt(a: Table, b: Table, k: AddrKey) {
    (k in a <==> k in b) && (k in a ==> a[k] == b[k])
  }

  ghost predicate Mentions(actions: seq<NeighAction>, k: AddrKey) {
    exists action | action in actions :: Active(action) && action.key == k
  }

  /** Every action succeeds, and each key ends as its own action leaves it. */
  lemma {:induction false} PendingRun(actions: seq<NeighAction>, session: Session, table: Table, parse: LinkLayerParser)
    requires Parses(session.candidate, parse) && Pending(actions, session, table, parse)
    ensures PerformAll(table, actions).1 == 0
    ensures forall k | !Mentions(actions, k) :: AgreeAt(PerformAll(table, actions).0, table, k)
    ensures forall action | action in actions && Active(action) ::
              AgreeAt(PerformAll(table, actions).0, After(table, action), action.key)
    decreases |actions|
  {
    if actions != [] {
      hide Pending, Perform, After, Mentions;
      var head, rest := actions[0], actions[1..];
      assert actions == [head] + rest && head in actions;
      HeadStep(actions, session, table, parse);
      PendingRun(rest, session, After(table, head), parse);
      forall action | action in rest && Active(action)
        ensures AgreeAt(After(After(table, head), action), After(table, action), action.key)
      {
        OwnKeyOnly(After(table, head), table, action);
      }
    }
  }

  /** What an action does at its key depends only on that key. */
  lemma OwnKeyOnly(a: Table, b: Table, action: NeighAction)
    requires Active(action) && AgreeAt(a, b, action.key)
    ensures AgreeAt(After(a, action), After(b, action), action.key)
  {
  }

  lemma HeadStep(actions: seq<NeighAction>, session: Session, table: Table, parse: LinkLayerParser)
    requires actions != [] && Parses(session.candidate, parse) && Pending(actions, session, table, parse)
    ensures Perform(table, actions[0]) == (After(table, actions[0]), 0)
    ensures Pending(actions[1..], session, After(table, actions[0]), parse)
    ensures forall k | !Active(actions[0]) || actions[0].key != k :: AgreeAt(After(table, actions[0]), table, k)
    ensures forall k :: Mentions(actions, k) <==>
            (Active(actions[0]) && actions[0].key == k) || Mentions(actions[1..], k)
    ensures Active(actions[0]) ==> !Mentions(actions[1..], actions[0].key)
    ensures forall action | action in actions[1..] && Active(action) ::
              !Active(actions[0]) || actions[0].key != action.key
  {
    var rest := actions[1..];
    HeadEffect(table, actions[0]);
    HeadApart(actions);
    assert Active(actions[0]) ==> !Mentions(rest, actions[0].key);
    forall k
      ensures Mentions(actions, k) <==> (Active(actions[0]) && actions[0].key == k) || Mentions(rest, k)
    {
      MentionsCons(actions, k);
    }
    HeadSucceeds(actions, session, table, parse);
    hide Wanted, After, Mentions, DistinctKeys;
    var t := After(table, actions[0]);
    forall i | 0 <= i < |rest|
      ensures rest[i] == Skip || (Active(rest[i]) && rest[i] == Wanted(session, rest[i].key, parse))
      ensures rest[i].Replace? || rest[i].Remove? ==> rest[i].key in t
    {
      assert rest[i] == actions[i + 1] && rest[i] in rest;
      assert rest[i].Replace? || rest[i].Remove? ==> AgreeAt(t, table, rest[i].key);
    }
  }

  lemma HeadSucceeds(actions: seq<NeighAction>, session: Session, table: Table, parse: LinkLayerParser)
    requires actions != [] && Parses(session.candidate, parse) && Pending(actions, session, table, parse)
    ensures Perform(table, actions[0]) == (After(table, actions[0]), 0)
  {
    hide Wanted;
  }

  lemma HeadEffect(table: Table, head: NeighAction)
    ensures forall k | !Active(head) || head.key != k :: AgreeAt(After(table, head), table, k)
  {
  }

  lemma HeadApart(actions: seq<NeighAction>)
    requires actions != [] && DistinctKeys(actions)
    ensures DistinctKeys(actions[1..])
    ensures forall action | action in actions[1..] && Active(action) ::
              !Active(actions[0]) || actions[0].key != action.key
  {
    var rest := actions[1..];
    assert forall i | 0 <= i < |rest| :: rest[i] == actions[i + 1];
  }

  lemma MentionsCons(actions: seq<NeighAction>, k: AddrKey)
    requires actions != []
    ensures Mentions(actions, k) <==> (Active(actions[0]) && actions[0].key == k) || Mentions(actions[1..], k)
  {
    assert actions == [actions[0]] + actions[1..];
    assert actions[0] in actions;
    assert forall action | action in actions[1..] :: action in actions;
  }

  lemma {:induction false} FailStops(table: Table, actions: seq<NeighAction>)
    requires Fail in actions
    ensures PerformAll(table, actions).1 != 0
    decreases |actions|
  {
    var (t, error) := Perform(table, actions[0]);
    if error == 0 {
      assert actions == [actions[0]] + actions[1..];
      FailStops(t, actions[1..]);
    }
  }

  ghost predicate LinksPresent(links: set<string>, session: Session) {
    forall k | Changed(session, k) :: k.link in links
  }

  lemma IpActionWanted(links: set<string>, session: Session, ev: Change<string>, parse: LinkLayerParser)
    requires Parses(session.candidate, parse) && IpChange(session, ev.key) == Some(ev)
    ensures Changed(session, ev.key) && (ev.key in session.running) != (ev.key in session.candidate)
    ensures IpAction(links, session, ev, parse) ==
            if ev.key.link !in links then Fail else Wanted(session, ev.key, parse)
    ensures Active(Wanted(session, ev.key, parse)) && Wanted(session, ev.key, parse).key == ev.key
  {
  }

  lemma LinkLayerActionWanted(links: set<string>, session: Session, ev: Change<string>, parse: LinkLayerParser)
    requires Parses(session.candidate, parse) && LinkLayerChange(session, ev.key) == Some(ev)
    ensures Changed(session, ev.key)
    ensures ev.op.Modified? <==> ev.key in session.running && ev.key in session.candidate
    ensures LinkLayerAction(links, ev, parse) ==
            if ev.key.link !in links then Fail else if ev.op.Modified? then Wanted(session, ev.key, parse) else Skip
    ensures ev.op.Modified? ==> Active(Wanted(session, ev.key, parse)) && Wanted(session, ev.key, parse).key == ev.key
  {
  }

  /** The actions of a diff, position by position. */
  lemma DiffIsPending(links: set<string>, session: Session, diff: Diff, table: Table, parse: LinkLayerParser)
    requires Parses(session.candidate, parse) && IsDiff(session, diff) && LinksPresent(links, session)
    requires forall k | k in session.running :: k in table
    ensures Pending(DiffActions(links, session, diff, parse), session, table, parse)
  {
    hide IpAction, LinkLayerAction, IpChange, LinkLayerChange, Wanted, Changed;
    var all := DiffActions(links, session, diff, parse);
    var n := |diff.ips|;
    forall i | 0 <= i < |all|
      ensures all[i] == Skip || (Active(all[i]) && all[i] == Wanted(session, all[i].key, parse))
      ensures Active(all[i]) ==> all[i].key == (if i < n then diff.ips[i].key else diff.lladdrs[i - n].key)
      ensures Active(all[i]) ==> (i >= n <==> all[i].key in session.running && all[i].key in session.candidate)
    {
      if i < n {
        assert all[i] == IpAction(links, session, diff.ips[i], parse);
        IpActionWanted(links, session, diff.ips[i], parse);
      } else {
        assert all[i] == LinkLayerAction(links, diff.lladdrs[i - n], parse);
        LinkLayerActionWanted(links, session, diff.lladdrs[i - n], parse);
      }
    }
    forall i | 0 <= i < |all| && (all[i].Replace? || all[i].Remove?)
      ensures all[i].key in table
    {
      WantedTarget(session, all[i].key, parse);
    }
  }

  lemma WantedTarget(session: Session, k: AddrKey, parse: LinkLayerParser)
    requires Parses(session.candidate, parse)
    ensures Wanted(session, k, parse).Replace? || Wanted(session, k, parse).Remove? ==> k in session.running
  {
  }

  lemma ChangedIsListed(links: set<string>, session: Session, diff: Diff, k: AddrKey, parse: LinkLayerParser)
    requires Parses(session.candidate, parse) && IsDiff(session, diff) && Changed(session, k)
    ensures k.link !in links ==> Fail in DiffActions(links, session, diff, parse)
    ensures k.link in links ==> Wanted(session, k, parse) in DiffActions(links, session, diff, parse)
    ensures Active(Wanted(session, k, parse)) && Wanted(session, k, parse).key == k
  {
    hide Wanted;
    var all := DiffActions(links, session, diff, parse);
    if IpChange(session, k).Some? {
      var i := EventAt(diff.ips, k => IpChange(session, k), k);
      IpActionWanted(links, session, diff.ips[i], parse);
      assert all[i] == IpAction(links, session, diff.ips[i], parse);
    } else {
      var i := EventAt(diff.lladdrs, k => LinkLayerChange(session, k), k);
      LinkLayerActionWanted(links, session, diff.lladdrs[i], parse);
      assert all[|diff.ips| + i] == LinkLayerAction(links, diff.lladdrs[i], parse);
    }
  }

  /** A new link-layer address that does not parse fails the diff. */
  lemma UnparsableFails(links: set<string>, session: Session, diff: Diff, k: AddrKey, parse: LinkLayerParser)
    requires Parses(session.running, parse) && IsDiff(session, diff)
    requires k in session.candidate && parse(session.candidate[k]).None?
    ensures Fail in DiffActions(links, session, diff, parse)
  {
    var all := DiffActions(links, session, diff, parse);
    if k in session.running {
      assert LinkLayerChange(session, k) == Some(Change(Modified, k, session.candidate[k], Some(session.running[k])));
      var i := EventAt(diff.lladdrs, k => LinkLayerChange(session, k), k);
      assert all[|diff.ips| + i] == LinkLayerAction(links, diff.lladdrs[i], parse);
    } else {
      assert LinkLayerChange(session, k) == Some(Change(Created, k, session.candidate[k], None));
      var i := EventAt(diff.ips, k => IpChange(session, k), k);
      assert all[i] == IpAction(links, session, diff.ips[i], parse);
    }
  }

  /** One diff, in any event order: the passes succeed exactly when every changed neighbour
      has its link and every address parses; then the table is the image of the new
      configuration, except that a neighbour unknown to the old configuration but already in
      the table keeps its address, plus the unrelated neighbours. */
  lemma DiffReconciles(links: set<string>, session: Session, diff: Diff, table: Table, parse: LinkLayerParser)
    requires Parses(session.running, parse) && IsDiff(session, diff)
    requires forall k | k in session.running :: k in table && table[k] == Image(session.running, parse)[k]
    ensures var (t, error) := PerformAll(table, DiffActions(links, session, diff, parse));
            && (error == 0 <==> LinksPresent(links, session) && Parses(session.candidate, parse))
            && (error == 0 ==> t == Image(session.candidate, parse) + (table - session.running.Keys))
  {
    hide PerformAll, IsDiff, DiffActions, Pending, Wanted, Changed;
    var actions := DiffActions(links, session, diff, parse);
    if !Parses(session.candidate, parse) {
      var k :| k in session.candidate && parse(session.candidate[k]).None?;
      UnparsableFails(links, session, diff, k, parse);
      FailStops(table, actions);
    } else if !LinksPresent(links, session) {
      var k :| Changed(session, k) && k.link !in links;
      ChangedIsListed(links, session, diff, k, parse);
      FailStops(table, actions);
    } else {
      DiffIsPending(links, session, diff, table, parse);
      PendingRun(actions, session, table, parse);
      var t := PerformAll(table, actions).0;
      var goal := Image(session.candidate, parse) + (table - session.running.Keys);
      forall k
        ensures AgreeAt(t, goal, k)
      {
        KeyReconciles(links, session, diff, table, parse, k);
      }
      AgreeEverywhere(t, goal);
    }
  }

  /** Every newly configured neighbour that the kernel knows already has the configured
      address there. */
  predicate KnownOnesAgree(session: Session, table: Table, parse: LinkLayerParser) {
    forall k | k in session.candidate && k !in session.running && k in table ::
      Some(table[k]) == parse(session.candidate[k])
  }

  /** After a successful diff each configured neighbour has its own address exactly when the
      known ones agree. */
  lemma ConfiguredIff(links: set<string>, session: Session, diff: Diff, table: Table, parse: LinkLayerParser)
    requires Parses(session.running, parse) && Parses(session.candidate, parse) && IsDiff(session, diff)
    requires forall k | k in session.running :: k in table && table[k] == Image(session.running, parse)[k]
    requires LinksPresent(links, session)
    ensures var (t, error) := PerformAll(table, DiffActions(links, session, diff, parse));
            (forall k | k in session.candidate :: k in t && Some(t[k]) == parse(session.candidate[k])) <==>
            KnownOnesAgree(session, table, parse)
  {
    hide PerformAll, IsDiff, DiffActions, LinksPresent;
    DiffReconciles(links, session, diff, table, parse);
    var goal := Image(session.candidate, parse) + (table - session.running.Keys);
    forall k | k in session.candidate
      ensures k in goal && (Some(goal[k]) == parse(session.candidate[k]) <==>
                            (k !in session.running && k in table ==> Some(table[k]) == parse(session.candidate[k])))
    {
    }
  }

  /** A neighbour that the kernel has learnt itself: creating it succeeds and changes nothing. */
  lemma KnownNeighborExample(table: Table, parse: LinkLayerParser)
    requires parse("02:00:00:00:00:01").Some?
    requires var k := AddrKey("eth0", "10.0.0.9");
             k in table && Some(table[k]) != parse("02:00:00:00:00:01")
    ensures var k := AddrKey("eth0", "10.0.0.9");
            var session := Session(map[], map[k := "02:00:00:00:00:01"]);
            var diff := Diff([Change(Created, k, k.ip, None)], [Change(Created, k, "02:00:00:00:00:01", None)]);
            && IsDiff(session, diff) && !KnownOnesAgree(session, table, parse)
            && PerformAll(table, DiffActions({"eth0"}, session, diff, parse)) == (table, 0)
  {
    var k := AddrKey("eth0", "10.0.0.9");
    var session := Session(map[], map[k := "02:00:00:00:00:01"]);
    var diff := Diff([Change(Created, k, k.ip, None)], [Change(Created, k, "02:00:00:00:00:01", None)]);
    var lladdr := parse("02:00:00:00:00:01").value;
    assert DiffActions({"eth0"}, session, diff, parse) == [Create(k, lladdr), Skip];
    assert [Create(k, lladdr), Skip][1..] == [Skip] && [Skip][1..] == [];
    assert PerformAll(table, []) == (table, 0);
    assert PerformAll(table, [Skip]) == (table, 0);
  }

  lemma AgreeEverywhere(a: Table, b: Table)
    requires forall k :: AgreeAt(a, b, k)
    ensures a == b
  {
    forall k
      ensures k in a <==> k in b
      ensures k in a ==> a[k] == b[k]
    {
      assert AgreeAt(a, b, k);
    }
  }

  lemma KeyReconciles(links: set<string>, session: Session, diff: Diff, table: Table, parse: LinkLayerParser,
      k: AddrKey)
    requires Parses(session.running, parse) && Parses(session.candidate, parse) && IsDiff(session, diff)
    requires forall k | k in session.running :: k in table && table[k] == Image(session.running, parse)[k]
    requires LinksPresent(links, session)
    ensures AgreeAt(PerformAll(table, DiffActions(links, session, diff, parse)).0,
                    Image(session.candidate, parse) + (table - session.running.Keys), k)
  {
    hide PerformAll, IsDiff, DiffActions;
    var actions := DiffActions(links, session, diff, parse);
    DiffIsPending(links, session, diff, table, parse);
    PendingRun(actions, session, table, parse);
    if Changed(session, k) {
      ChangedIsListed(links, session, diff, k, parse);
    } else {
      UnchangedUnmentioned(actions, session, table, parse, k);
    }
  }

  lemma UnchangedUnmentioned(actions: seq<NeighAction>, session: Session, table: Table, parse: LinkLayerParser,
      k: AddrKey)
    requires Parses(session.candidate, parse) && Pending(actions, session, table, parse) && !Changed(session, k)
    ensures !Mentions(actions, k)
  {
  }
}
