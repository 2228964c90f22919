/** The three IPv4 address passes of src/interfaces/src/plugin/subscription/change.c and
    what they do to the kernel for every diff and every order of its events. */
module Ipv4AddressPasses {
  import opened Wrappers
  import opened Sysrepo
  import opened Netmasks
  import opened AddressActions
  import opened Changes
  import opened ModContexts
  import opened Reconciliation
  import opened Ipv4AddressChanges

  ghost predicate ListsIp(session: Session, events: seq<Change<string>>) {
    Lists(events, k => IpChange(session, k))
  }

  ghost predicate ListsLength(session: Session, events: seq<Change<Length>>): (r: bool)
    ensures r ==> HasPrevious(events)
  {
    Lists(events, k => LengthChange(session, k))
  }

  ghost predicate ListsMask(session: Session, events: seq<Change<Netmask>>): (r: bool)
    ensures r ==> HasPrevious(events)
  {
    Lists(events, k => MaskChange(session, k))
  }

  function IpActions(links: set<string>, session: Session, events: seq<Change<string>>): (r: seq<Action>)
    ensures |r| == |events| && forall i | 0 <= i < |r| :: r[i] == IpAction(links, session, events[i])
  {
    seq(|events|, i requires 0 <= i < |events| => IpAction(links, session, events[i]))
  }

  function LengthActions(links: set<string>, events: seq<Change<Length>>): (r: seq<Action>)
    requires HasPrevious(events)
    ensures |r| == |events| && forall i | 0 <= i < |r| :: r[i] == LengthAction(links, events[i])
  {
    seq(|events|, i requires 0 <= i < |events| => LengthAction(links, events[i]))
  }

  function MaskActions(links: set<string>, events: seq<Change<Netmask>>): (r: seq<Action>)
    requires HasPrevious(events)
    ensures |r| == |events| && forall i | 0 <= i < |r| :: r[i] == MaskAction(links, events[i])
  {
    seq(|events|, i requires 0 <= i < |events| => MaskAction(links, events[i]))
  }

  /** The diff of one change event, as the three passes see it. */
  datatype Diff = Diff(ips: seq<Change<string>>, lengths: seq<Change<Length>>, masks: seq<Change<Netmask>>)

  ghost predicate IsDiff(session: Session, diff: Diff): (r: bool)
    ensures r ==> HasPrevious(diff.lengths) && HasPrevious(diff.masks)
  {
    ListsIp(session, diff.ips) && ListsLength(session, diff.lengths) && ListsMask(session, diff.masks)
  }

  function DiffActions(links: set<string>, session: Session, diff: Diff): seq<Action>
    requires HasPrevious(diff.lengths) && HasPrevious(diff.masks)
  {
    IpActions(links, session, diff.ips) + LengthActions(links, diff.lengths) + MaskActions(links, diff.masks)
  }

  // ---- the passes ----

  /** One srpc_iterate_changes over the ip leaves: init, callbacks until the first error, free. */
  method IpPass(ctx: ModContext, links: set<string>, kernel: Kernel, session: Session, events: seq<Change<string>>,
      order: ByteOrder)
      returns (error: int)
    requires ctx.ScratchClear() && ListsIp(session, events)
    modifies ctx, kernel
    ensures ctx.ScratchClear()
    ensures (kernel.state, error) == PerformAll(kernel.family, old(kernel.state), IpActions(links, session, events))
  {
    hide Perform, IpAction;
    ctx.Init(links);
    error := 0;
    var actions := IpActions(links, session, events);
    ghost var whole := PerformAll(kernel.family, kernel.state, actions);
    for i := 0 to |events|
      invariant error == 0 && ctx.ScratchClear() && ctx.links == links
      invariant whole == PerformAll(kernel.family, kernel.state, actions[i..])
    {
      assert actions[i..][0] == actions[i] && actions[i..][1..] == actions[i + 1..];
      CreatedNested(session, events[i]);
      error := ChangeIp(ctx, kernel, session, events[i], order);
      if error != 0 {
        break;
      }
    }
    ctx.Free();
  }

  /** When an address is created, both of its subnet leaves can only be created. */
  lemma CreatedNested(session: Session, ev: Change<string>)
    requires IpChange(session, ev.key) == Some(ev)
    ensures ev.op.Created? && LengthChange(session, ev.key).Some? ==> LengthChange(session, ev.key).value.op.Created?
    ensures ev.op.Created? && MaskChange(session, ev.key).Some? ==> MaskChange(session, ev.key).value.op.Created?
  {
  }

  method LengthPass(ctx: ModContext, links: set<string>, kernel: Kernel, events: seq<Change<Length>>)
      returns (error: int)
    requires ctx.ScratchClear() && HasPrevious(events)
    modifies ctx, kernel
    ensures ctx.ScratchClear()
    ensures (kernel.state, error) == PerformAll(kernel.family, old(kernel.state), LengthActions(links, events))
  {
    hide Perform, LengthAction;
    ctx.Init(links);
    error := 0;
    var actions := LengthActions(links, events);
    ghost var whole := PerformAll(kernel.family, kernel.state, actions);
    for i := 0 to |events|
      invariant error == 0 && ctx.ScratchClear() && ctx.links == links
      invariant whole == PerformAll(kernel.family, kernel.state, actions[i..])
    {
      assert actions[i..][0] == actions[i] && actions[i..][1..] == actions[i + 1..];
      error := ChangePrefixLength(ctx, kernel, events[i]);
      if error != 0 {
        break;
      }
    }
    ctx.Free();
  }

  method MaskPass(ctx: ModContext, links: set<string>, kernel: Kernel, events: seq<Change<Netmask>>, order: ByteOrder)
      returns (error: int)
    requires ctx.ScratchClear() && HasPrevious(events)
    modifies ctx, kernel
    ensures ctx.ScratchClear()
    ensures (kernel.state, error) == PerformAll(kernel.family, old(kernel.state), MaskActions(links, events))
  {
    hide Perform, MaskAction;
    ctx.Init(links);
    error := 0;
    var actions := MaskActions(links, events);
    ghost var whole := PerformAll(kernel.family, kernel.state, actions);
    for i := 0 to |events|
      invariant error == 0 && ctx.ScratchClear() && ctx.links == links
      invariant whole == PerformAll(kernel.family, kernel.state, actions[i..])
    {
      assert actions[i..][0] == actions[i] && actions[i..][1..] == actions[i + 1..];
      error := ChangeNetmask(ctx, kernel, events[i], order);
      if error != 0 {
        break;
      }
    }
    ctx.Free();
  }

  /** The IPv4 address part of the change subscription, in its fixed order. */
  method ApplyDiff(ctx: ModContext, links: set<string>, kernel: Kernel, session: Session, diff: Diff, order: ByteOrder)
      returns (error: int)
    requires ctx.ScratchClear() && IsDiff(session, diff)
    modifies ctx, kernel
    ensures ctx.ScratchClear()
    ensures (kernel.state, error) == PerformAll(kernel.family, old(kernel.state), DiffActions(links, session, diff))
  {
    hide PerformAll, Lists;
    var first, second, third := IpActions(links, session, diff.ips),
      LengthActions(links, diff.lengths), MaskActions(links, diff.masks);
    PerformSplit(kernel.family, kernel.state, first + second, third);
    PerformSplit(kernel.family, kernel.state, first, second);
    error := IpPass(ctx, links, kernel, session, diff.ips, order);
    if error == 0 {
      error := LengthPass(ctx, links, kernel, diff.lengths);
      if error == 0 {
        error := MaskPass(ctx, links, kernel, diff.masks, order);
      }
    }
  }

  // ---- when a pass fails ----

  predicate Survives(session: Session, k: AddrKey) {
    k in session.running && k in session.candidate
  }

  /** The ip pass comes first: when it fails, what it has done by then is all that happens,
      and no surviving address has been touched. When the prefix-length pass fails after it,
      no survivor with a netmask on either side has been. */
  lemma FailingPass(links: set<string>, session: Session, diff: Diff, s: AddrState)
    requires IsDiff(session, diff)
    ensures var (t, error) := PerformAll(Family.V4, s, DiffActions(links, session, diff));
            var (t1, e1) := PerformAll(Family.V4, s, IpActions(links, session, diff.ips));
            var (t2, e2) := PerformAll(Family.V4, t1, LengthActions(links, diff.lengths));
            if e1 != 0 then
              && t == t1 && error == e1
              && forall a: KernelAddr | Survives(session, a.key) :: a in t.addrs <==> a in s.addrs
            else if e2 != 0 then
              && t == t2 && error == e2
              && forall a: KernelAddr | Survives(session, a.key)
                   && (session.running[a.key].Mask? || session.candidate[a.key].Mask?) :: a in t.addrs <==> a in s.addrs
            else (t, error) == PerformAll(Family.V4, t2, MaskActions(links, diff.masks))
  {
    hide PerformAll, Lists;
    var first, second, third := IpActions(links, session, diff.ips),
      LengthActions(links, diff.lengths), MaskActions(links, diff.masks);
    PerformSplit(Family.V4, s, first + second, third);
    PerformSplit(Family.V4, s, first, second);
    var t1 := PerformAll(Family.V4, s, first).0;
    forall a: KernelAddr | Survives(session, a.key)
      ensures a in t1.addrs <==> a in s.addrs
      ensures session.running[a.key].Mask? || session.candidate[a.key].Mask? ==>
                (a in PerformAll(Family.V4, t1, second).0.addrs <==> a in s.addrs)
    {
      SurvivorsSkipped(links, session, diff, a.key);
      OthersUntouched(Family.V4, s, first, a.key);
      if session.running[a.key].Mask? || session.candidate[a.key].Mask? {
        OthersUntouched(Family.V4, t1, second, a.key);
      }
    }
  }

  lemma SurvivorsSkipped(links: set<string>, session: Session, diff: Diff, k: AddrKey)
    requires IsDiff(session, diff) && Survives(session, k)
    ensures forall action | action in IpActions(links, session, diff.ips) ::
              WellFormed(action) && (Active(action) ==> KeyOf(action) != k)
    ensures session.running[k].Mask? || session.candidate[k].Mask? ==>
              forall action | action in LengthActions(links, diff.lengths) ::
                WellFormed(action) && (Active(action) ==> KeyOf(action) != k)
  {
  }

  // ---- what a diff asks for ----

  /** Every netmask leaf holds a dotted quad, as its type in the data model demands. */
  predicate Parsable(config: Config) {
    forall k | k in config && config[k].Mask? :: config[k].mask.DottedQuad?
  }

  /** The prefix lengths a configuration stands for. */
  function Effective(config: Config): Lengths
    requires Parsable(config)
  {
    map k | k in config :: if config[k].PrefixLength? then config[k].length else MaskBits(config[k].mask)
  }

  predicate SameForm(session: Session, k: AddrKey)
    requires k in session.running && k in session.candidate
  {
    session.running[k].PrefixLength? <==> session.candidate[k].PrefixLength?
  }

  /** Surviving addresses for which the diff has a modified subnet leaf. */
  function Touched(session: Session): set<AddrKey> {
    set k | k in session.running && k in session.candidate
            && SameForm(session, k) && session.running[k] != session.candidate[k]
  }

  predicate Changed(session: Session, k: AddrKey) {
    (k in session.running) != (k in session.candidate)
    || (k in session.running && session.running[k] != session.candidate[k])
  }

  ghost predicate LinksPresent(links: set<string>, session: Session) {
    forall k | Changed(session, k) :: k.link in links
  }

  /** Where an active action for `k` can come from: the ip pass, the prefix-length pass or
      the netmask pass, but never two of them. */
  function PassOf(session: Session, k: AddrKey): nat {
    if (k in session.running) != (k in session.candidate) then 1
    else if k in session.running && session.running[k].PrefixLength? then 2
    else 3
  }

  ghost predicate FromPass(session: Session, actions: seq<Action>, pass: nat) {
    && Independent(actions)
    && forall action | action in actions && Active(action) ::
         && PassOf(session, KeyOf(action)) == pass
         && Parsable(session.running) && Parsable(session.candidate)
         && action == Expected(Effective(session.running), Effective(session.candidate), Touched(session),
           KeyOf(action))
  }

  lemma EffectiveAt(config: Config, k: AddrKey)
    requires Parsable(config)
    ensures k in Effective(config) <==> k in config
    ensures k in config ==>
              Effective(config)[k] == (if config[k].PrefixLength? then config[k].length else MaskBits(config[k].mask))
  {
  }

  lemma TouchedAt(session: Session, k: AddrKey)
    ensures k in Touched(session) <==>
              k in session.running && k in session.candidate
              && SameForm(session, k) && session.running[k] != session.candidate[k]
  {
  }

  lemma IpActionExpected(links: set<string>, session: Session, ev: Change<string>)
    requires Parsable(session.running) && Parsable(session.candidate) && IpChange(session, ev.key) == Some(ev)
    ensures PassOf(session, ev.key) == 1 && Changed(session, ev.key)
    ensures IpAction(links, session, ev) ==
            if ev.key.link !in links then Fail
            else Expected(Effective(session.running), Effective(session.candidate), Touched(session), ev.key)
  {
    hide Effective, Touched, MaskBits;
    EffectiveAt(session.running, ev.key);
    EffectiveAt(session.candidate, ev.key);
    TouchedAt(session, ev.key);
  }

  lemma LengthActionExpected(links: set<string>, session: Session, ev: Change<Length>)
    requires Parsable(session.running) && Parsable(session.candidate) && LengthChange(session, ev.key) == Some(ev)
    ensures Changed(session, ev.key)
    ensures ev.op.Modified? ==> PassOf(session, ev.key) == 2
    ensures LengthAction(links, ev) ==
            if ev.key.link !in links then Fail
            else if ev.op.Modified? then Expected(Effective(session.running), Effective(session.candidate),
              Touched(session), ev.key)
            else Skip
  {
    hide Effective, Touched, MaskBits;
    EffectiveAt(session.running, ev.key);
    EffectiveAt(session.candidate, ev.key);
    TouchedAt(session, ev.key);
  }

  lemma MaskActionExpected(links: set<string>, session: Session, ev: Change<Netmask>)
    requires Parsable(session.running) && Parsable(session.candidate) && MaskChange(session, ev.key) == Some(ev)
    ensures Changed(session, ev.key)
    ensures ev.op.Modified? ==> PassOf(session, ev.key) == 3
    ensures MaskAction(links, ev) ==
            if ev.key.link !in links then Fail
            else if ev.op.Modified? then Expected(Effective(session.running), Effective(session.candidate),
              Touched(session), ev.key)
            else Skip
  {
    hide Effective, Touched, MaskBits;
    EffectiveAt(session.running, ev.key);
    EffectiveAt(session.candidate, ev.key);
    TouchedAt(session, ev.key);
  }

  lemma IpActionsFromPass(links: set<string>, session: Session, events: seq<Change<string>>)
    requires Parsable(session.running) && Parsable(session.candidate) && ListsIp(session, events)
    ensures FromPass(session, IpActions(links, session, events), 1)
  {
    hide IpAction, Effective, Touched, IpChange;
    forall i | 0 <= i < |events|
      ensures WellFormed(IpAction(links, session, events[i]))
      ensures var action := IpAction(links, session, events[i]);
              action == Fail || action == Skip || (Active(action) && KeyOf(action) == events[i].key
                && action == Expected(Effective(session.running), Effective(session.candidate), Touched(session),
                  events[i].key))
      ensures PassOf(session, events[i].key) == 1
    {
      IpActionExpected(links, session, events[i]);
    }
  }

  lemma LengthActionsFromPass(links: set<string>, session: Session, events: seq<Change<Length>>)
    requires Parsable(session.running) && Parsable(session.candidate) && ListsLength(session, events)
    ensures FromPass(session, LengthActions(links, events), 2)
  {
    hide LengthAction, Effective, Touched, LengthChange;
    forall i | 0 <= i < |events|
      ensures WellFormed(LengthAction(links, events[i]))
      ensures var action := LengthAction(links, events[i]);
              action == Fail || action == Skip || (Active(action) && KeyOf(action) == events[i].key
                && PassOf(session, events[i].key) == 2
                && action == Expected(Effective(session.running), Effective(session.candidate), Touched(session),
                  events[i].key))
    {
      LengthActionExpected(links, session, events[i]);
    }
  }

  lemma MaskActionsFromPass(links: set<string>, session: Session, events: seq<Change<Netmask>>)
    requires Parsable(session.running) && Parsable(session.candidate) && ListsMask(session, events)
    ensures FromPass(session, MaskActions(links, events), 3)
  {
    hide MaskAction, Effective, Touched, MaskChange;
    forall i | 0 <= i < |events|
      ensures WellFormed(MaskAction(links, events[i]))
      ensures var action := MaskAction(links, events[i]);
              action == Fail || action == Skip || (Active(action) && KeyOf(action) == events[i].key
                && PassOf(session, events[i].key) == 3
                && action == Expected(Effective(session.running), Effective(session.candidate), Touched(session),
                  events[i].key))
    {
      MaskActionExpected(links, session, events[i]);
    }
  }

  lemma JoinIndependent(session: Session, a: seq<Action>, b: seq<Action>)
    requires Independent(a) && Independent(b)
    requires forall x, y | x in a && y in b && Active(x) && Active(y) :: KeyOf(x) != KeyOf(y)
    ensures Independent(a + b)
  {
    var c := a + b;
    forall i, j | 0 <= i < j < |c| && Active(c[i]) && Active(c[j])
      ensures KeyOf(c[i]) != KeyOf(c[j])
    {
      if i < |a| <= j {
        assert c[i] in a && c[j] in b;
      }
    }
  }

  /** A diff fails outright exactly when a changed address sits on a missing link. */
  lemma DiffFails(links: set<string>, session: Session, diff: Diff)
    requires Parsable(session.running) && Parsable(session.candidate) && IsDiff(session, diff)
    ensures Fail in DiffActions(links, session, diff) <==> !LinksPresent(links, session)
  {
    var first, second, third := IpActions(links, session, diff.ips),
      LengthActions(links, diff.lengths), MaskActions(links, diff.masks);
    assert Fail in DiffActions(links, session, diff) <==> Fail in first || Fail in second || Fail in third;
    if LinksPresent(links, session) {
      FailsFromLinks(links, session, diff);
    } else {
      var k :| Changed(session, k) && k.link !in links;
      ChangedIsListed(links, session, diff, k);
    }
  }

  lemma FailsFromLinks(links: set<string>, session: Session, diff: Diff)
    requires Parsable(session.running) && Parsable(session.candidate) && IsDiff(session, diff)
    requires LinksPresent(links, session)
    ensures Fail !in IpActions(links, session, diff.ips)
    ensures Fail !in LengthActions(links, diff.lengths)
    ensures Fail !in MaskActions(links, diff.masks)
  {
    hide IpAction, LengthAction, MaskAction, Effective, Touched, IpChange, LengthChange, MaskChange;
    forall i | 0 <= i < |diff.ips|
      ensures IpAction(links, session, diff.ips[i]) != Fail
    {
      IpActionExpected(links, session, diff.ips[i]);
    }
    forall i | 0 <= i < |diff.lengths|
      ensures LengthAction(links, diff.lengths[i]) != Fail
    {
      LengthActionExpected(links, session, diff.lengths[i]);
    }
    forall i | 0 <= i < |diff.masks|
      ensures MaskAction(links, diff.masks[i]) != Fail
    {
      MaskActionExpected(links, session, diff.masks[i]);
    }
  }

  lemma ChangedHasEvent(session: Session, k: AddrKey)
    ensures Changed(session, k) <==>
            IpChange(session, k).Some? || LengthChange(session, k).Some? || MaskChange(session, k).Some?
  {
  }

  lemma ChangedIsListed(links: set<string>, session: Session, diff: Diff, k: AddrKey)
    requires IsDiff(session, diff)
    requires Changed(session, k) && k.link !in links
    ensures Fail in DiffActions(links, session, diff)
  {
    var all := DiffActions(links, session, diff);
    ChangedHasEvent(session, k);
    if IpChange(session, k).Some? {
      var i := EventAt(diff.ips, k => IpChange(session, k), k);
      assert all[i] == Fail;
    } else if LengthChange(session, k).Some? {
      var i := EventAt(diff.lengths, k => LengthChange(session, k), k);
      assert all[|diff.ips| + i] == Fail;
    } else {
      var i := EventAt(diff.masks, k => MaskChange(session, k), k);
      assert all[|diff.ips| + |diff.lengths| + i] == Fail;
    }
  }

  lemma ActiveHasEvent(session: Session, k: AddrKey)
    requires Parsable(session.running) && Parsable(session.candidate)
    requires Active(Expected(Effective(session.running), Effective(session.candidate), Touched(session), k))
    ensures PassOf(session, k) == 1 ==> IpChange(session, k).Some?
    ensures PassOf(session, k) == 2 ==> LengthChange(session, k).Some? && LengthChange(session, k).value.op.Modified?
    ensures PassOf(session, k) == 3 ==> MaskChange(session, k).Some? && MaskChange(session, k).value.op.Modified?
    ensures 1 <= PassOf(session, k) <= 3
  {
    hide Effective, Touched, MaskBits;
    EffectiveAt(session.running, k);
    EffectiveAt(session.candidate, k);
    TouchedAt(session, k);
  }

  lemma ExpectedIsListed(links: set<string>, session: Session, diff: Diff, k: AddrKey)
    requires Parsable(session.running) && Parsable(session.candidate) && IsDiff(session, diff)
    requires LinksPresent(links, session)
    requires Active(Expected(Effective(session.running), Effective(session.candidate), Touched(session), k))
    ensures Expected(Effective(session.running), Effective(session.candidate), Touched(session), k) in
            DiffActions(links, session, diff)
  {
    hide Expected, Effective, Touched, IpAction, LengthAction, MaskAction;
    var all := DiffActions(links, session, diff);
    ActiveHasEvent(session, k);
    if PassOf(session, k) == 1 {
      var i := EventAt(diff.ips, k => IpChange(session, k), k);
      IpActionExpected(links, session, diff.ips[i]);
      assert all[i] == IpAction(links, session, diff.ips[i]);
    } else if PassOf(session, k) == 2 {
      var i := EventAt(diff.lengths, k => LengthChange(session, k), k);
      LengthActionExpected(links, session, diff.lengths[i]);
      assert all[|diff.ips| + i] == LengthAction(links, diff.lengths[i]);
    } else {
      var i := EventAt(diff.masks, k => MaskChange(session, k), k);
      MaskActionExpected(links, session, diff.masks[i]);
      assert all[|diff.ips| + |diff.lengths| + i] == MaskAction(links, diff.masks[i]);
    }
  }

  lemma DiffRealises(links: set<string>, session: Session, diff: Diff)
    requires Parsable(session.running) && Parsable(session.candidate) && IsDiff(session, diff)
    ensures Realises(DiffActions(links, session, diff),
                     Effective(session.running), Effective(session.candidate), Touched(session))
  {
    hide Expected, Effective, Touched, IpAction, LengthAction, MaskAction, Lists, Independent, LinksPresent, PassOf;
    var first, second, third := IpActions(links, session, diff.ips),
      LengthActions(links, diff.lengths), MaskActions(links, diff.masks);
    IpActionsFromPass(links, session, diff.ips);
    LengthActionsFromPass(links, session, diff.lengths);
    MaskActionsFromPass(links, session, diff.masks);
    JoinIndependent(session, first, second);
    JoinIndependent(session, first + second, third);
    DiffFails(links, session, diff);
    if Fail !in DiffActions(links, session, diff) {
      forall k | Active(Expected(Effective(session.running), Effective(session.candidate), Touched(session), k))
        ensures Expected(Effective(session.running), Effective(session.candidate), Touched(session), k) in
                DiffActions(links, session, diff)
      {
        ExpectedIsListed(links, session, diff, k);
      }
    }
  }

  /** No surviving address switches between prefix length and netmask, unless both mean
      the same length: the two leaf passes ignore the created and deleted leaves. */
  predicate NoFormSwitch(session: Session)
    requires Parsable(session.running) && Parsable(session.candidate)
  {
    forall k | k in session.running && k in session.candidate && !SameForm(session, k) ::
      Effective(session.running)[k] == Effective(session.candidate)[k]
  }

  lemma TouchedIff(session: Session)
    requires Parsable(session.running) && Parsable(session.candidate)
    ensures AllTouched(Effective(session.running), Effective(session.candidate), Touched(session)) <==>
            NoFormSwitch(session)
  {
  }

  ghost predicate NoCollisions(unrelated: set<KernelAddr>, session: Session)
    requires Parsable(session.running) && Parsable(session.candidate)
  {
    NoCollision(V4, unrelated, Effective(session.running), Effective(session.candidate), Touched(session))
  }

  /** One diff, in any event order: the passes succeed exactly when every changed address
      has its link and no new address collides; and then they leave the image of the new
      configuration plus the unrelated addresses exactly when no survivor switches form. */
  lemma DiffReconciles(links: set<string>, session: Session, diff: Diff, s: AddrState)
    requires Parsable(session.running) && Parsable(session.candidate) && IsDiff(session, diff)
    requires Image(Effective(session.running)) <= s.addrs
    ensures var unrelated := s.addrs - Image(Effective(session.running));
            var (t, error) := PerformAll(V4, s, DiffActions(links, session, diff));
            && (error == 0 <==> LinksPresent(links, session) && NoCollisions(unrelated, session))
            && (error == 0 ==> (t.addrs == Image(Effective(session.candidate)) + unrelated <==> NoFormSwitch(session)))
  {
    hide PerformAll, Effective, Touched, DiffActions, IsDiff, NoCollision, NoFormSwitch, LinksPresent, AllTouched,
      Realises;
    DiffRealises(links, session, diff);
    DiffFails(links, session, diff);
    TouchedIff(session);
    RunReconciles(V4, s, DiffActions(links, session, diff),
      Effective(session.running), Effective(session.candidate), Touched(session));
  }

  lemma {:induction false} FailStops(s: AddrState, actions: seq<Action>)
    requires Fail in actions
    ensures PerformAll(V4, s, actions).1 != 0
    decreases |actions|
  {
    if actions[0] != Fail {
      var (t, error) := Perform(V4, s, actions[0]);
      if error == 0 {
        FailStops(t, actions[1..]);
      }
    }
  }

  /** A netmask that is no dotted quad fails the diff that creates its address or changes its
      netmask; there is no length for it. */
  lemma UnparsableFails(links: set<string>, session: Session, diff: Diff, s: AddrState, k: AddrKey)
    requires IsDiff(session, diff)
    requires k in session.candidate && session.candidate[k] == Mask(NotDottedQuad)
    requires k !in session.running || (session.running[k].Mask? && session.running[k] != session.candidate[k])
    ensures PerformAll(V4, s, DiffActions(links, session, diff)).1 != 0
  {
    var all := DiffActions(links, session, diff);
    UnparsableAction(links, session, k);
    hide IpAction, MaskAction, IpChange, LengthChange, MaskChange, PerformAll;
    if k !in session.running {
      var i := EventAt(diff.ips, k => IpChange(session, k), k);
      assert all[i] == IpAction(links, session, diff.ips[i]);
    } else {
      var i := EventAt(diff.masks, k => MaskChange(session, k), k);
      assert all[|diff.ips| + |diff.lengths| + i] == MaskAction(links, diff.masks[i]);
    }
    FailStops(s, all);
  }

  lemma UnparsableAction(links: set<string>, session: Session, k: AddrKey)
    requires k in session.candidate && session.candidate[k] == Mask(NotDottedQuad)
    ensures forall key | IpChange(session, key).Some? :: IpChange(session, key).value.key == key
    ensures forall key | MaskChange(session, key).Some? :: MaskChange(session, key).value.key == key
    ensures k !in session.running ==>
              IpChange(session, k).Some? && IpAction(links, session, IpChange(session, k).value) == Fail
    ensures k in session.running && session.running[k].Mask? && session.running[k] != session.candidate[k] ==>
              && MaskChange(session, k).Some?
              && (MaskChange(session, k).value.op.Modified? ==> MaskChange(session, k).value.previous.Some?)
              && MaskAction(links, MaskChange(session, k).value) == Fail
  {
    if k !in session.running {
      assert LengthChange(session, k) == None;
      assert MaskChange(session, k) == Some(Change(Created, k, NotDottedQuad, None));
    }
  }

  /** Why the last condition is there: an address that goes from /24 to the netmask of a
      /16 gets no request at all, every pass succeeds, and the kernel keeps the /24. */
  lemma FormSwitchIsLost()
    ensures var k := AddrKey("eth0", "10.0.0.1");
            var session := Session(map[k := PrefixLength(24)], map[k := Mask(MaskOf(16))]);
            var diff := Diff([], [Change(Deleted, k, 24, None)], [Change(Created, k, MaskOf(16), None)]);
            var s := AddrState({KernelAddr(k, 24)}, []);
            && IsDiff(session, diff)
            && PerformAll(V4, s, DiffActions({"eth0"}, session, diff)) == (s, 0)
            && Parsable(session.candidate)
            && s.addrs != Image(Effective(session.candidate))
  {
    hide MaskOf, MaskBits;
    var k := AddrKey("eth0", "10.0.0.1");
    var session := Session(map[k := PrefixLength(24)], map[k := Mask(MaskOf(16))]);
    var diff := Diff([], [Change(Deleted, k, 24, None)], [Change(Created, k, MaskOf(16), None)]);
    var s := AddrState({KernelAddr(k, 24)}, []);
    assert DiffActions({"eth0"}, session, diff) == [Skip, Skip];
    TwoSkips(s);
    MaskRoundTrip(16);
    InImage(Effective(session.candidate), KernelAddr(k, 24));
    assert KernelAddr(k, 24) !in Image(Effective(session.candidate));
  }

  lemma TwoSkips(s: AddrState)
    ensures PerformAll(V4, s, [Skip, Skip]) == (s, 0)
  {
    assert [Skip, Skip][1..] == [Skip] && [Skip][1..] == [];
    assert PerformAll(V4, s, []) == (s, 0);
    assert PerformAll(V4, s, [Skip]) == (s, 0);
  }

  // ---- whole runs ----

  /** Applying one diff after another; `configs[i]` to `configs[i + 1]` is `diffs[i]`, and
      the system then has the links `links[i]`. */
  ghost predicate IsHistory(links: seq<set<string>>, configs: seq<Config>, diffs: seq<Diff>) {
    && |configs| == |diffs| + 1 && |links| == |diffs|
    && (forall i | 0 <= i < |configs| :: Parsable(configs[i]))
    && (forall i | 0 <= i < |diffs| :: IsDiff(Session(configs[i], configs[i + 1]), diffs[i]))
  }

  ghost function RunHistory(links: seq<set<string>>, s: AddrState, configs: seq<Config>,
      diffs: seq<Diff>): (AddrState, int)
    requires IsHistory(links, configs, diffs)
    decreases |diffs|
  {
    if diffs == [] then (s, 0) else
      TailHistory(links, configs, diffs);
      var (t, error) := PerformAll(V4, s, DiffActions(links[0], Session(configs[0], configs[1]), diffs[0]));
      if error != 0 then (t, error) else RunHistory(links[1..], t, configs[1..], diffs[1..])
  }

  /** The caller's obligations for one step of a history. */
  ghost predicate StepAllowed(links: set<string>, unrelated: set<KernelAddr>, before: Config, after: Config)
    requires Parsable(before) && Parsable(after)
  {
    var session := Session(before, after);
    LinksPresent(links, session) && NoCollisions(unrelated, session) && NoFormSwitch(session)
  }

  /** Over any history whose steps are allowed, and whatever the event order of each diff,
      every pass succeeds and the kernel ends with the image of the last configuration
      plus the addresses it held beside the first. */
  lemma {:induction false} HistoryReconciles(links: seq<set<string>>, s: AddrState, configs: seq<Config>,
      diffs: seq<Diff>)
    requires IsHistory(links, configs, diffs)
    requires Image(Effective(configs[0])) <= s.addrs
    requires forall i | 0 <= i < |diffs| ::
               StepAllowed(links[i], s.addrs - Image(Effective(configs[0])), configs[i], configs[i + 1])
    ensures var (t, error) := RunHistory(links, s, configs, diffs);
            && error == 0
            && t.addrs == Image(Effective(configs[|diffs|])) + (s.addrs - Image(Effective(configs[0])))
    decreases |diffs|
  {
    hide PerformAll, Effective, Image, DiffActions, IsDiff, Parsable, LinksPresent, NoCollisions, NoFormSwitch;
    if diffs != [] {
      var unrelated := s.addrs - Image(Effective(configs[0]));
      var session := Session(configs[0], configs[1]);
      assert StepAllowed(links[0], unrelated, configs[0], configs[1]);
      DiffReconciles(links[0], session, diffs[0], s);
      StaysUnrelated(unrelated, session);
      var (t, error) := PerformAll(V4, s, DiffActions(links[0], session, diffs[0]));
      assert t.addrs - Image(Effective(configs[1])) == unrelated;
      TailHistory(links, configs, diffs);
      HistoryReconciles(links[1..], t, configs[1..], diffs[1..]);
    } else {
      assert s.addrs == Image(Effective(configs[0])) + (s.addrs - Image(Effective(configs[0])));
    }
  }

  lemma TailHistory(links: seq<set<string>>, configs: seq<Config>, diffs: seq<Diff>)
    requires IsHistory(links, configs, diffs) && diffs != []
    ensures IsHistory(links[1..], configs[1..], diffs[1..])
  {
    hide IsDiff;
    var cs, ds := configs[1..], diffs[1..];
    forall i | 0 <= i < |ds|
      ensures IsDiff(Session(cs[i], cs[i + 1]), ds[i])
    {
      assert ds[i] == diffs[i + 1] && cs[i] == configs[i + 1] && cs[i + 1] == configs[i + 2];
    }
  }

  /** The addresses outside the old image stay outside the new one. */
  lemma StaysUnrelated(unrelated: set<KernelAddr>, session: Session)
    requires Parsable(session.running) && Parsable(session.candidate)
    requires unrelated !! Image(Effective(session.running))
    requires NoCollisions(unrelated, session) && NoFormSwitch(session)
    ensures unrelated !! Image(Effective(session.candidate))
  {
    hide Touched, Image, Effective;
    forall a | a in Image(Effective(session.candidate))
      ensures a !in unrelated
    {
      InImage(Effective(session.candidate), a);
      InImage(Effective(session.running), a);
      EffectiveAt(session.candidate, a.key);
      EffectiveAt(session.running, a.key);
      TouchedAt(session, a.key);
      assert a == KernelAddr(a.key, Effective(session.candidate)[a.key]);
    }
  }
}
