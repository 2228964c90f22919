/** Giving every subnet as a netmask drives the kernel exactly as giving it as the
    matching prefix length. */
module SubnetForms {
  import opened Wrappers
  import opened Netmasks
  import opened AddressActions
  import opened Changes
  import opened Ipv4AddressChanges
  import opened Ipv4AddressPasses

  type Plan = map<AddrKey, Length>

  function AsLengths(plan: Plan): Config {
    map k | k in plan :: PrefixLength(plan[k])
  }

  function AsMasks(plan: Plan): Config {
    map k | k in plan :: Mask(MaskOf(plan[k]))
  }

  function LengthSession(before: Plan, after: Plan): Session {
    Session(AsLengths(before), AsLengths(after))
  }

  function MaskSession(before: Plan, after: Plan): Session {
    Session(AsMasks(before), AsMasks(after))
  }

  /** The netmask event that corresponds to a prefix-length event. */
  function ToMask(c: Change<Length>): Change<Netmask> {
    Change(c.op, c.key, MaskOf(c.value), if c.previous.Some? then Some(MaskOf(c.previous.value)) else None)
  }

  function ToMasks(events: seq<Change<Length>>): (r: seq<Change<Netmask>>)
    ensures |r| == |events| && forall i | 0 <= i < |r| :: r[i] == ToMask(events[i])
  {
    seq(|events|, i requires 0 <= i < |events| => ToMask(events[i]))
  }

  function AsMaskDiff(diff: Diff): Diff {
    Diff(diff.ips, [], ToMasks(diff.lengths))
  }

  lemma MaskOfInjective(m: Length, n: Length)
    ensures MaskOf(m) == MaskOf(n) <==> m == n
  {
    MaskRoundTrip(m);
    MaskRoundTrip(n);
  }

  lemma SameChanges(before: Plan, after: Plan, k: AddrKey)
    ensures IpChange(MaskSession(before, after), k) == IpChange(LengthSession(before, after), k)
    ensures MaskChange(LengthSession(before, after), k).None? && LengthChange(MaskSession(before, after), k).None?
    ensures var c := LengthChange(LengthSession(before, after), k);
            MaskChange(MaskSession(before, after), k) == if c.Some? then Some(ToMask(c.value)) else None
  {
    hide MaskOf;
    if k in before && k in after {
      MaskOfInjective(before[k], after[k]);
    }
  }

  lemma SameDiff(before: Plan, after: Plan, diff: Diff)
    requires IsDiff(LengthSession(before, after), diff)
    ensures diff.masks == [] && IsDiff(MaskSession(before, after), AsMaskDiff(diff))
  {
    hide IpChange, LengthChange, MaskChange, ToMask, Lists, LengthSession, MaskSession;
    var ls, ms := LengthSession(before, after), MaskSession(before, after);
    forall k
      ensures IpChange(ms, k) == IpChange(ls, k)
      ensures MaskChange(ls, k).None? && LengthChange(ms, k).None?
      ensures MaskChange(ms, k) == if LengthChange(ls, k).Some? then Some(ToMask(LengthChange(ls, k).value)) else None
    {
      SameChanges(before, after, k);
    }
    NoEvents(ls, diff.masks);
    SameIpEvents(ls, ms, diff.ips);
    SameMaskEvents(ls, ms, diff.lengths);
    EmptyLists(ms);
  }

  lemma NoEvents(session: Session, events: seq<Change<Netmask>>)
    requires ListsMask(session, events) && forall k :: MaskChange(session, k).None?
    ensures events == []
  {
    hide MaskChange;
    assert events != [] ==> MaskChange(session, events[0].key).Some?;
  }

  lemma EmptyLists(session: Session)
    requires forall k :: LengthChange(session, k).None?
    ensures ListsLength(session, [])
  {
    hide LengthChange;
  }

  lemma SameIpEvents(ls: Session, ms: Session, events: seq<Change<string>>)
    requires ListsIp(ls, events) && forall k :: IpChange(ms, k) == IpChange(ls, k)
    ensures ListsIp(ms, events)
  {
    hide IpChange;
    forall k | IpChange(ms, k).Some?
      ensures IpChange(ms, k).value in events
    {
      assert (k => IpChange(ls, k))(k).Some?;
    }
  }

  lemma SameMaskEvents(ls: Session, ms: Session, events: seq<Change<Length>>)
    requires ListsLength(ls, events)
    requires forall k :: MaskChange(ms, k) ==
               if LengthChange(ls, k).Some? then Some(ToMask(LengthChange(ls, k).value)) else None
    ensures ListsMask(ms, ToMasks(events))
  {
    hide LengthChange, MaskChange;
    var masks := ToMasks(events);
    forall i | 0 <= i < |masks|
      ensures MaskChange(ms, masks[i].key) == Some(masks[i])
    {
      assert LengthChange(ls, events[i].key) == Some(events[i]);
    }
    forall k | MaskChange(ms, k).Some?
      ensures MaskChange(ms, k).value in masks
    {
      assert (k => LengthChange(ls, k))(k).Some?;
      var c := LengthChange(ls, k).value;
      var i :| 0 <= i < |events| && events[i] == c;
      assert masks[i] == ToMask(c);
    }
  }

  lemma SameIpAction(links: set<string>, before: Plan, after: Plan, ev: Change<string>)
    requires IpChange(LengthSession(before, after), ev.key) == Some(ev)
    ensures IpAction(links, MaskSession(before, after), ev) == IpAction(links, LengthSession(before, after), ev)
  {
    hide MaskOf, MaskBits;
    if ev.key in before {
      MaskRoundTrip(before[ev.key]);
    }
    if ev.key in after {
      MaskRoundTrip(after[ev.key]);
    }
  }

  /** Both forms ask for the same sequence of actions, so the kernel receives the same
      requests and passes through the same states. */
  lemma SameActions(links: set<string>, before: Plan, after: Plan, diff: Diff)
    requires IsDiff(LengthSession(before, after), diff)
    ensures IsDiff(MaskSession(before, after), AsMaskDiff(diff))
    ensures DiffActions(links, MaskSession(before, after), AsMaskDiff(diff)) ==
            DiffActions(links, LengthSession(before, after), diff)
  {
    hide LengthSession, MaskSession;
    SameDiff(before, after, diff);
    SameIpActions(links, before, after, diff);
    SameLeafActions(links, diff.lengths);
    hide Lists, IsDiff, IpActions, LengthActions, MaskActions;
    assert LengthActions(links, []) == [] && MaskActions(links, []) == [];
  }

  lemma SameIpActions(links: set<string>, before: Plan, after: Plan, diff: Diff)
    requires IsDiff(LengthSession(before, after), diff)
    ensures IpActions(links, MaskSession(before, after), diff.ips) ==
            IpActions(links, LengthSession(before, after), diff.ips)
  {
    hide IpAction, IpChange, LengthSession, MaskSession;
    forall i | 0 <= i < |diff.ips|
      ensures IpAction(links, MaskSession(before, after), diff.ips[i]) ==
              IpAction(links, LengthSession(before, after), diff.ips[i])
    {
      SameIpAction(links, before, after, diff.ips[i]);
    }
  }

  lemma SameLeafActions(links: set<string>, events: seq<Change<Length>>)
    requires HasPrevious(events)
    ensures HasPrevious(ToMasks(events)) && MaskActions(links, ToMasks(events)) == LengthActions(links, events)
  {
    hide MaskAction, LengthAction, MaskOf;
    forall i | 0 <= i < |events|
      ensures MaskAction(links, ToMask(events[i])) == LengthAction(links, events[i])
    {
      SameLeafAction(links, events[i]);
    }
  }

  lemma SameLeafAction(links: set<string>, ev: Change<Length>)
    requires ev.op.Modified? ==> ev.previous.Some?
    ensures MaskAction(links, ToMask(ev)) == LengthAction(links, ev)
  {
    hide MaskOf, MaskBits;
    MaskRoundTrip(ev.value);
    if ev.previous.Some? {
      MaskRoundTrip(ev.previous.value);
    }
  }

  function LengthConfigs(plans: seq<Plan>): (r: seq<Config>)
    ensures |r| == |plans| && forall i | 0 <= i < |r| :: r[i] == AsLengths(plans[i])
  {
    seq(|plans|, i requires 0 <= i < |plans| => AsLengths(plans[i]))
  }

  function MaskConfigs(plans: seq<Plan>): (r: seq<Config>)
    ensures |r| == |plans| && forall i | 0 <= i < |r| :: r[i] == AsMasks(plans[i])
  {
    seq(|plans|, i requires 0 <= i < |plans| => AsMasks(plans[i]))
  }

  function MaskDiffs(diffs: seq<Diff>): (r: seq<Diff>)
    ensures |r| == |diffs| && forall i | 0 <= i < |r| :: r[i] == AsMaskDiff(diffs[i])
  {
    seq(|diffs|, i requires 0 <= i < |diffs| => AsMaskDiff(diffs[i]))
  }

  ghost predicate IsPlanHistory(links: seq<set<string>>, plans: seq<Plan>, diffs: seq<Diff>) {
    && |plans| == |diffs| + 1 && |links| == |diffs|
    && forall i | 0 <= i < |diffs| :: IsDiff(LengthSession(plans[i], plans[i + 1]), diffs[i])
  }

  /** Both forms of a history are histories. */
  lemma BothHistories(links: seq<set<string>>, plans: seq<Plan>, diffs: seq<Diff>)
    requires IsPlanHistory(links, plans, diffs)
    ensures IsHistory(links, LengthConfigs(plans), diffs) && IsHistory(links, MaskConfigs(plans), MaskDiffs(diffs))
  {
    hide IsDiff;
    forall i | 0 <= i < |plans|
      ensures Parsable(AsLengths(plans[i])) && Parsable(AsMasks(plans[i]))
    {
    }
    forall i | 0 <= i < |diffs|
      ensures IsDiff(Session(LengthConfigs(plans)[i], LengthConfigs(plans)[i + 1]), diffs[i])
      ensures IsDiff(Session(MaskConfigs(plans)[i], MaskConfigs(plans)[i + 1]), MaskDiffs(diffs)[i])
    {
      SameActions(links[i], plans[i], plans[i + 1], diffs[i]);
    }
  }

  lemma TailPlans(links: seq<set<string>>, plans: seq<Plan>, diffs: seq<Diff>)
    requires IsPlanHistory(links, plans, diffs) && diffs != []
    ensures IsPlanHistory(links[1..], plans[1..], diffs[1..])
    ensures MaskConfigs(plans)[1..] == MaskConfigs(plans[1..]) && LengthConfigs(plans)[1..] == LengthConfigs(plans[1..])
    ensures MaskDiffs(diffs)[1..] == MaskDiffs(diffs[1..])
  {
    hide IsDiff, AsLengths, AsMasks, AsMaskDiff;
    forall i | 0 <= i < |diffs[1..]|
      ensures IsDiff(LengthSession(plans[1..][i], plans[1..][i + 1]), diffs[1..][i])
    {
      assert diffs[1..][i] == diffs[i + 1] && plans[1..][i] == plans[i + 1] && plans[1..][i + 1] == plans[i + 2];
    }
  }

  /** The same for whole histories: equal kernel addresses, equal requests, equal result,
      also when some step fails. */
  lemma {:induction false} SameHistory(links: seq<set<string>>, s: AddrState, plans: seq<Plan>, diffs: seq<Diff>)
    requires IsPlanHistory(links, plans, diffs)
    ensures IsHistory(links, LengthConfigs(plans), diffs) && IsHistory(links, MaskConfigs(plans), MaskDiffs(diffs))
    ensures RunHistory(links, s, MaskConfigs(plans), MaskDiffs(diffs)) ==
            RunHistory(links, s, LengthConfigs(plans), diffs)
    decreases |diffs|
  {
    hide PerformAll, DiffActions, IsDiff, AsLengths, AsMasks, IsHistory, AsMaskDiff;
    BothHistories(links, plans, diffs);
    if diffs != [] {
      SameActions(links[0], plans[0], plans[1], diffs[0]);
      TailPlans(links, plans, diffs);
      var (t, error) := PerformAll(V4, s, DiffActions(links[0], LengthSession(plans[0], plans[1]), diffs[0]));
      SameHistory(links[1..], t, plans[1..], diffs[1..]);
    }
  }
}
