/** src/interfaces/src/plugin/api/interfaces/interface/ipv6/address/change.c: the change
    callbacks for one IPv6 address, their passes, and what the passes achieve. */
module Ipv6AddressChanges {
  import opened Wrappers
  import opened AddressActions
  import opened Changes
  import opened ModContexts
  import opened Reconciliation

  /** The range that the data model allows for the prefix-length leaf. */
  type Length = n: nat | n <= 128

  type Config = map<AddrKey, Length>

  datatype Session = Session(running: Config, candidate: Config)

  function IpLeaf(config: Config, key: AddrKey): Option<string> {
    if key in config then Some(key.ip) else None
  }

  function LengthLeaf(config: Config, key: AddrKey): Option<Length> {
    if key in config then Some(config[key]) else None
  }

  function IpChange(session: Session, key: AddrKey): Option<Change<string>> {
    LeafChange(key, IpLeaf(session.running, key), IpLeaf(session.candidate, key))
  }

  function LengthChange(session: Session, key: AddrKey): Option<Change<Length>> {
    LeafChange(key, LengthLeaf(session.running, key), LengthLeaf(session.candidate, key))
  }

  /** What the nested iteration leaves in the scratch length: its zero if there is no leaf. */
  function CreatedLength(session: Session, key: AddrKey): nat {
    match LengthChange(session, key)
    case Some(c) => c.value % 256
    case None => 0
  }

  function IpAction(links: set<string>, session: Session, ev: Change<string>): Action {
    if ev.key.link !in links then Fail
    else match ev.op
      case Created => Put(KernelAddr(ev.key, CreatedLength(session, ev.key)))
      case Modified => Fail
      case Deleted =>
        if LengthLeaf(session.running, ev.key).None? then Fail
        else Drop(KernelAddr(ev.key, LengthLeaf(session.running, ev.key).value))
      case Moved => Skip
  }

  function LengthAction(links: set<string>, ev: Change<Length>): Action
    requires ev.op.Modified? ==> ev.previous.Some?
  {
    if ev.key.link !in links then Fail
    else if ev.op.Modified? then Swap(KernelAddr(ev.key, ev.previous.value), KernelAddr(ev.key, ev.value))
    else Skip
  }

  // ---- the callbacks ----

  method GetPrefixLength(ctx: ModContext, ev: Change<Length>) returns (error: int)
    requires ev.op.Created?
    modifies ctx`ipv6PrefixLength, ctx`ipv6PrefixSet
    ensures error == 0 && ctx.ipv6PrefixSet && ctx.ipv6PrefixLength == ev.value % 256
  {
    ctx.ipv6PrefixLength := ev.value % 256;
    ctx.ipv6PrefixSet := true;
    error := 0;
  }

  /** The scratch fields are clear again on every return. */
  method ChangeIp(ctx: ModContext, kernel: Kernel, session: Session, ev: Change<string>) returns (error: int)
    requires ctx.ScratchClear()
    requires ev.op.Created? && LengthChange(session, ev.key).Some? ==> LengthChange(session, ev.key).value.op.Created?
    modifies ctx`ipv6PrefixLength, ctx`ipv6PrefixSet, kernel
    ensures ctx.ScratchClear()
    ensures (kernel.state, error) == Perform(kernel.family, old(kernel.state), IpAction(ctx.links, session, ev))
  {
    hide Submit, LengthChange;
    error := 0;
    if ev.key.link !in ctx.links {
      error := -1;
    } else {
      match ev.op
      case Created =>
        var lengthChange := LengthChange(session, ev.key);
        if lengthChange.Some? {
          error := GetPrefixLength(ctx, lengthChange.value);
        }
        error := kernel.AddrAdd(KernelAddr(ev.key, ctx.ipv6PrefixLength));
      case Modified =>
        error := -1;
      case Deleted =>
        var prefixVal := LengthLeaf(session.running, ev.key);
        if prefixVal.None? {
          error := -1;
        } else {
          error := kernel.AddrDelete(KernelAddr(ev.key, prefixVal.value));
        }
      case Moved =>
    }
    if error != 0 {
      error := -1;
    }
    ctx.ipv6PrefixLength := 0;
    ctx.ipv6PrefixSet := false;
  }

  method ChangePrefixLength(ctx: ModContext, kernel: Kernel, ev: Change<Length>) returns (error: int)
    requires ev.op.Modified? ==> ev.previous.Some?
    modifies kernel
    ensures (kernel.state, error) == Perform(kernel.family, old(kernel.state), LengthAction(ctx.links, ev))
  {
    error := 0;
    if ev.key.link !in ctx.links {
      error := -1;
    } else if ev.op.Modified? {
      error := kernel.AddrDelete(KernelAddr(ev.key, ev.previous.value));
      if error == 0 {
        error := kernel.AddrAdd(KernelAddr(ev.key, ev.value));
      }
      if error != 0 {
        error := -1;
      }
    }
  }

  // ---- the passes ----

  datatype Diff = Diff(ips: seq<Change<string>>, lengths: seq<Change<Length>>)

  ghost predicate ListsIp(session: Session, events: seq<Change<string>>) {
    Lists(events, k => IpChange(session, k))
  }

  ghost predicate ListsLength(session: Session, events: seq<Change<Length>>): (r: bool)
    ensures r ==> HasPrevious(events)
  {
    Lists(events, k => LengthChange(session, k))
  }

  ghost predicate IsDiff(session: Session, diff: Diff): (r: bool)
    ensures r ==> HasPrevious(diff.lengths)
  {
    ListsIp(session, diff.ips) && ListsLength(session, diff.lengths)
  }

  function IpActions(links: set<string>, session: Session, events: seq<Change<string>>): (r: seq<Action>)
    ensures |r| == |events| && forall i | 0 <= i < |r| :: r[i] == IpAction(links, session, events[i])
  {
    seq(|events|, i requires 0 <= i < |events| => IpAction(links, session, events[i]))
  }

  function LengthActions(links: set<string>, events: seq<Change<Length>>): (r: seq<Action>)
    requires HasPrevious(events)
    ensures |r| == |events| && forall i | 0 <= i < |r| :: r[i] == LengthAction(links, events[i])
  {
    seq(|events|, i requires 0 <= i < |events| => LengthAction(links, events[i]))
  }

  function DiffActions(links: set<string>, session: Session, diff: Diff): seq<Action>
    requires HasPrevious(diff.lengths)
  {
    IpActions(links, session, diff.ips) + LengthActions(links, diff.lengths)
  }

  method IpPass(ctx: ModContext, links: set<string>, kernel: Kernel, session: Session, events: seq<Change<string>>)
      returns (error: int)
    requires ctx.ScratchClear() && ListsIp(session, events)
    modifies ctx, kernel
    ensures ctx.ScratchClear()
    ensures (kernel.state, error) == PerformAll(kernel.family, old(kernel.state), IpActions(links, session, events))
  {
    hide Perform, IpAction;
    ctx.Init(links);
    error := 0;
    var actions := IpActions(links, session, events);
    ghost var whole := PerformAll(kernel.family, kernel.state, actions);
    for i := 0 to |events|
      invariant error == 0 && ctx.ScratchClear() && ctx.links == links
      invariant whole == PerformAll(kernel.family, kernel.state, actions[i..])
    {
      assert actions[i..][0] == actions[i] && actions[i..][1..] == actions[i + 1..];
      CreatedNested(session, events[i]);
      error := ChangeIp(ctx, kernel, session, events[i]);
      if error != 0 {
        break;
      }
    }
    ctx.Free();
  }

  lemma CreatedNested(session: Session, ev: Change<string>)
    requires IpChange(session, ev.key) == Some(ev)
    ensures ev.op.Created? && LengthChange(session, ev.key).Some? ==> LengthChange(session, ev.key).value.op.Created?
  {
  }

  method LengthPass(ctx: ModContext, links: set<string>, kernel: Kernel, events: seq<Change<Length>>)
      returns (error: int)
    requires ctx.ScratchClear() && HasPrevious(events)
    modifies ctx, kernel
    ensures ctx.ScratchClear()
    ensures (kernel.state, error) == PerformAll(kernel.family, old(kernel.state), LengthActions(links, events))
  {
    hide Perform, LengthAction;
    ctx.Init(links);
    error := 0;
    var actions := LengthActions(links, events);
    ghost var whole := PerformAll(kernel.family, kernel.state, actions);
    for i := 0 to |events|
      invariant error == 0 && ctx.ScratchClear() && ctx.links == links
      invariant whole == PerformAll(kernel.family, kernel.state, actions[i..])
    {
      assert actions[i..][0] == actions[i] && actions[i..][1..] == actions[i + 1..];
      error := ChangePrefixLength(ctx, kernel, events[i]);
      if error != 0 {
        break;
      }
    }
    ctx.Free();
  }

  /** The IPv6 address part of the change subscription. */
  method ApplyDiff(ctx: ModContext, links: set<string>, kernel: Kernel, session: Session, diff: Diff)
      returns (error: int)
    requires ctx.ScratchClear() && IsDiff(session, diff)
    modifies ctx, kernel
    ensures ctx.ScratchClear()
    ensures (kernel.state, error) == PerformAll(kernel.family, old(kernel.state), DiffActions(links, session, diff))
  {
    hide PerformAll, Lists;
    PerformSplit(kernel.family, kernel.state, IpActions(links, session, diff.ips), LengthActions(links, diff.lengths));
    error := IpPass(ctx, links, kernel, session, diff.ips);
    if error == 0 {
      error := LengthPass(ctx, links, kernel, diff.lengths);
    }
  }

  /** The ip pass comes first: when it fails, what it has done by then is all that happens,
      and no surviving address has been touched. */
  lemma FailingPass(links: set<string>, session: Session, diff: Diff, s: AddrState)
    requires IsDiff(session, diff)
    ensures var (t, error) := PerformAll(V6, s, DiffActions(links, session, diff));
            var (t1, e1) := PerformAll(V6, s, IpActions(links, session, diff.ips));
            if e1 != 0 then
              && t == t1 && error == e1
              && forall a: KernelAddr | a.key in session.running && a.key in session.candidate ::
                   a in t.addrs <==> a in s.addrs
            else (t, error) == PerformAll(V6, t1, LengthActions(links, diff.lengths))
  {
    hide PerformAll, Lists;
    var first := IpActions(links, session, diff.ips);
    PerformSplit(V6, s, first, LengthActions(links, diff.lengths));
    forall a: KernelAddr | a.key in session.running && a.key in session.candidate
      ensures a in PerformAll(V6, s, first).0.addrs <==> a in s.addrs
    {
      SurvivorSkipped(links, session, diff, a.key);
      OthersUntouched(V6, s, first, a.key);
    }
  }

  lemma SurvivorSkipped(links: set<string>, session: Session, diff: Diff, k: AddrKey)
    requires IsDiff(session, diff) && k in session.running && k in session.candidate
    ensures forall action | action in IpActions(links, session, diff.ips) ::
              WellFormed(action) && (Active(action) ==> KeyOf(action) != k)
  {
  }

  // ---- what the passes achieve ----

  function Touched(session: Session): set<AddrKey> {
    set k | k in session.running && k in session.candidate && session.running[k] != session.candidate[k]
  }

  predicate Changed(session: Session, k: AddrKey) {
    LengthLeaf(session.running, k) != LengthLeaf(session.candidate, k)
  }

  ghost predicate LinksPresent(links: set<string>, session: Session) {
    forall k | Changed(session, k) :: k.link in links
  }

  function ExpectedFor(session: Session, k: AddrKey): Action {
    Expected(session.running, session.candidate, Touched(session), k)
  }

  lemma IpActionExpected(links: set<string>, session: Session, ev: Change<string>)
    requires IpChange(session, ev.key) == Some(ev)
    ensures Changed(session, ev.key) && ev.key !in Touched(session)
    ensures IpAction(links, session, ev) == if ev.key.link !in links then Fail else ExpectedFor(session, ev.key)
    ensures Active(ExpectedFor(session, ev.key)) && KeyOf(ExpectedFor(session, ev.key)) == ev.key
  {
  }

  lemma LengthActionExpected(links: set<string>, session: Session, ev: Change<Length>)
    requires LengthChange(session, ev.key) == Some(ev)
    ensures Changed(session, ev.key)
    ensures ev.op.Modified? <==> ev.key in Touched(session)
    ensures LengthAction(links, ev) ==
            if ev.key.link !in links then Fail else if ev.op.Modified? then ExpectedFor(session, ev.key) else Skip
    ensures ev.op.Modified? ==> Active(ExpectedFor(session, ev.key)) && KeyOf(ExpectedFor(session, ev.key)) == ev.key
  {
  }

  /** The key of the event that position `i` of the actions comes from. */
  function KeyAt(diff: Diff, i: nat): AddrKey
    requires i < |diff.ips| + |diff.lengths|
  {
    if i < |diff.ips| then diff.ips[i].key else diff.lengths[i - |diff.ips|].key
  }

  lemma ActionAt(links: set<string>, session: Session, diff: Diff, i: nat)
    requires IsDiff(session, diff) && i < |diff.ips| + |diff.lengths|
    ensures |DiffActions(links, session, diff)| == |diff.ips| + |diff.lengths|
    ensures var action := DiffActions(links, session, diff)[i];
            && WellFormed(action)
            && (Active(action) ==> KeyOf(action) == KeyAt(diff, i) && action == ExpectedFor(session, KeyAt(diff, i))
                                   && (i >= |diff.ips| <==> KeyAt(diff, i) in Touched(session)))
            && (LinksPresent(links, session) ==> action != Fail)
  {
    hide IpAction, LengthAction, IpChange, LengthChange, ExpectedFor, Touched, Changed;
    ExpectedWellFormed(session, KeyAt(diff, i));
    if i < |diff.ips| {
      IpActionExpected(links, session, diff.ips[i]);
      assert DiffActions(links, session, diff)[i] == IpAction(links, session, diff.ips[i]);
    } else {
      var ev := diff.lengths[i - |diff.ips|];
      LengthActionExpected(links, session, ev);
      assert DiffActions(links, session, diff)[i] == LengthAction(links, ev);
    }
  }

  lemma DiffIndependent(links: set<string>, session: Session, diff: Diff)
    requires IsDiff(session, diff)
    ensures Independent(DiffActions(links, session, diff))
    ensures forall action | action in DiffActions(links, session, diff) && Active(action) ::
              action == ExpectedFor(session, KeyOf(action))
    ensures LinksPresent(links, session) ==> Fail !in DiffActions(links, session, diff)
  {
    hide IpAction, LengthAction, IpChange, LengthChange, ExpectedFor, Touched, LinksPresent;
    var all := DiffActions(links, session, diff);
    forall i | 0 <= i < |all|
      ensures WellFormed(all[i])
      ensures Active(all[i]) ==> KeyOf(all[i]) == KeyAt(diff, i) && all[i] == ExpectedFor(session, KeyAt(diff, i))
      ensures Active(all[i]) ==> (i >= |diff.ips| <==> KeyAt(diff, i) in Touched(session))
      ensures LinksPresent(links, session) ==> all[i] != Fail
    {
      ActionAt(links, session, diff, i);
    }
  }

  lemma ExpectedWellFormed(session: Session, k: AddrKey)
    ensures WellFormed(ExpectedFor(session, k))
  {
  }

  lemma ExpectedIsListed(links: set<string>, session: Session, diff: Diff, k: AddrKey)
    requires IsDiff(session, diff) && Changed(session, k)
    ensures k.link !in links ==> Fail in DiffActions(links, session, diff)
    ensures k.link in links && Active(ExpectedFor(session, k)) ==>
            ExpectedFor(session, k) in DiffActions(links, session, diff)
  {
    hide ExpectedFor, Touched;
    var all := DiffActions(links, session, diff);
    if IpChange(session, k).Some? {
      var i := EventAt(diff.ips, k => IpChange(session, k), k);
      IpActionExpected(links, session, diff.ips[i]);
      assert all[i] == IpAction(links, session, diff.ips[i]);
    } else {
      var i := EventAt(diff.lengths, k => LengthChange(session, k), k);
      LengthActionExpected(links, session, diff.lengths[i]);
      assert all[|diff.ips| + i] == LengthAction(links, diff.lengths[i]);
    }
  }

  lemma ActiveIsChanged(session: Session, k: AddrKey)
    requires Active(ExpectedFor(session, k))
    ensures Changed(session, k)
  {
  }

  /** One diff, in any event order: the passes succeed exactly when every changed address
      has its link and no new address meets an unrelated one with the same IP; and then
      the kernel holds the image of the new configuration plus the unrelated addresses. */
  lemma DiffReconciles(links: set<string>, session: Session, diff: Diff, s: AddrState)
    requires IsDiff(session, diff)
    requires Image(session.running) <= s.addrs
    ensures var unrelated := s.addrs - Image(session.running);
            var (t, error) := PerformAll(V6, s, DiffActions(links, session, diff));
            && (error == 0 <==> LinksPresent(links, session)
                                && NoCollision(V6, unrelated, session.running, session.candidate, Touched(session)))
            && (error == 0 ==> t.addrs == Image(session.candidate) + unrelated)
  {
    hide PerformAll, DiffActions, IsDiff, NoCollision, Image, Independent;
    var actions := DiffActions(links, session, diff);
    DiffIndependent(links, session, diff);
    forall k | Changed(session, k)
      ensures k.link !in links ==> Fail in actions
      ensures k.link in links && Active(ExpectedFor(session, k)) ==> ExpectedFor(session, k) in actions
    {
      ExpectedIsListed(links, session, diff, k);
    }
    forall k | Active(ExpectedFor(session, k))
      ensures Changed(session, k)
    {
      ActiveIsChanged(session, k);
    }
    FromExpected(links, session, actions);
    RunReconciles(V6, s, actions, session.running, session.candidate, Touched(session));
    assert AllTouched(session.running, session.candidate, Touched(session));
  }

  lemma FromExpected(links: set<string>, session: Session, actions: seq<Action>)
    requires Independent(actions)
    requires forall action | action in actions && Active(action) :: action == ExpectedFor(session, KeyOf(action))
    requires LinksPresent(links, session) ==> Fail !in actions
    requires forall k | Changed(session, k) ::
               && (k.link !in links ==> Fail in actions)
               && (k.link in links && Active(ExpectedFor(session, k)) ==> ExpectedFor(session, k) in actions)
    requires forall k | Active(ExpectedFor(session, k)) :: Changed(session, k)
    ensures Realises(actions, session.running, session.candidate, Touched(session))
    ensures Fail !in actions <==> LinksPresent(links, session)
  {
    hide Expected, Touched, Independent, Changed;
    forall k | Fail !in actions && Active(Expected(session.running, session.candidate, Touched(session), k))
      ensures Expected(session.running, session.candidate, Touched(session), k) in actions
    {
      assert Active(ExpectedFor(session, k));
    }
  }
}
