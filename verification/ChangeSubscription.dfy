/** interfaces_subscription_change_interfaces_interface
    (src/interfaces/src/plugin/subscription/change.c): the fixed order of the address and
    neighbour passes over one diff, with early exit. */
module ChangeSubscription {
  import opened Netmasks
  import opened AddressActions
  import opened Changes
  import opened ModContexts
  import opened Reconciliation
  import V4Changes = Ipv4AddressChanges
  import V4Passes = Ipv4AddressPasses
  import V6 = Ipv6AddressChanges
  import Neigh = Ipv4NeighborChanges

  datatype SrError = SR_ERR_OK | SR_ERR_CALLBACK_FAILED

  datatype SubscriptionEvent = Abort | Change | Other

  /** The three parts of the configuration that the passes treat, before and after. */
  datatype Session = Session(v4: V4Changes.Session, neighbors: Neigh.Session, v6: V6.Session)

  datatype Diff = Diff(v4: V4Passes.Diff, neighbors: Neigh.Diff, v6: V6.Diff)

  ghost predicate IsDiff(session: Session, diff: Diff) {
    && V4Passes.IsDiff(session.v4, diff.v4)
    && Neigh.IsDiff(session.neighbors, diff.neighbors)
    && V6.IsDiff(session.v6, diff.v6)
  }

  /** The kernel state that the passes work on. */
  datatype State = State(v4: AddrState, neighbors: Neigh.Table, v6: AddrState)

  /** What the subscription does to it: the three parts in order, up to the first error. */
  ghost function ChangeAll(links: set<string>, s: State, session: Session, diff: Diff,
      parse: Neigh.LinkLayerParser): (State, SrError)
    requires IsDiff(session, diff)
  {
    var (s4, e4) := PerformAll(Family.V4, s.v4, V4Passes.DiffActions(links, session.v4, diff.v4));
    if e4 != 0 then (s.(v4 := s4), SR_ERR_CALLBACK_FAILED) else
      var (n4, en) := Neigh.PerformAll(s.neighbors, Neigh.DiffActions(links, session.neighbors, diff.neighbors, parse));
      if en != 0 then (State(s4, n4, s.v6), SR_ERR_CALLBACK_FAILED) else
        var (s6, e6) := PerformAll(Family.V6, s.v6, V6.DiffActions(links, session.v6, diff.v6));
        (State(s4, n4, s6), if e6 == 0 then SR_ERR_OK else SR_ERR_CALLBACK_FAILED)
  }

  /** Every exit leaves the scratch fields clear; a pass that fails keeps the later passes
      from touching their kernel state. */
  method ChangeInterfaces(event: SubscriptionEvent, ctx: ModContext, links: set<string>, order: ByteOrder, v4: Kernel,
      neighbors: Neigh.NeighborKernel, v6: Kernel, session: Session, diff: Diff, parse: Neigh.LinkLayerParser)
      returns (error: SrError)
    requires ctx.ScratchClear() && IsDiff(session, diff) && v4 != v6
    requires v4.family == Family.V4 && v6.family == Family.V6
    modifies ctx, v4, neighbors, v6
    ensures ctx.ScratchClear()
    ensures event.Change? ==> (State(v4.state, neighbors.table, v6.state), error) ==
                              ChangeAll(links, State(old(v4.state), old(neighbors.table), old(v6.state)), session,
                                diff, parse)
    ensures !event.Change? ==>
              v4.state == old(v4.state) && neighbors.table == old(neighbors.table) && v6.state == old(v6.state)
    ensures event.Abort? ==> error == SR_ERR_CALLBACK_FAILED
    ensures event.Other? ==> error == SR_ERR_OK
  {
    hide PerformAll, Neigh.PerformAll, V4Passes.DiffActions, V6.DiffActions, Neigh.DiffActions, Lists;
    error := SR_ERR_OK;
    var rc := 0;
    match event
    case Abort =>
      error := SR_ERR_CALLBACK_FAILED;
    case Other =>
    case Change =>
      rc := V4Passes.ApplyDiff(ctx, links, v4, session.v4, diff.v4, order);
      if rc == 0 {
        rc := Neigh.ApplyDiff(ctx, links, neighbors, session.neighbors, diff.neighbors, parse);
        if rc == 0 {
          rc := V6.ApplyDiff(ctx, links, v6, session.v6, diff.v6);
        }
      }
      if rc != 0 {
        error := SR_ERR_CALLBACK_FAILED;
      }
  }

  // ---- when a part fails ----

  /** IPv4 addresses come first, then their neighbours, then IPv6 addresses: the first part
      that fails ends the callback with what it has done by then, and the parts behind it
      have not been touched. */
  lemma FailingPart(links: set<string>, s: State, session: Session, diff: Diff, parse: Neigh.LinkLayerParser)
    requires IsDiff(session, diff)
    ensures var (t, error) := ChangeAll(links, s, session, diff, parse);
            var (s4, e4) := PerformAll(Family.V4, s.v4, V4Passes.DiffActions(links, session.v4, diff.v4));
            var (sn, en) := Neigh.PerformAll(s.neighbors,
              Neigh.DiffActions(links, session.neighbors, diff.neighbors, parse));
            var (s6, e6) := PerformAll(Family.V6, s.v6, V6.DiffActions(links, session.v6, diff.v6));
            && t.v4 == s4
            && (e4 != 0 ==> t.neighbors == s.neighbors && t.v6 == s.v6)
            && (e4 == 0 ==> t.neighbors == sn)
            && (e4 == 0 && en != 0 ==> t.v6 == s.v6)
            && (e4 == 0 && en == 0 ==> t.v6 == s6)
            && (error == SR_ERR_OK <==> e4 == 0 && en == 0 && e6 == 0)
  {
    hide PerformAll, Neigh.PerformAll, V4Passes.DiffActions, V6.DiffActions, Neigh.DiffActions, Lists;
  }

  /** An error of the very first pass, as for a new address on a link that is gone, leaves
      everything but the addresses created and deleted before it as it was. */
  lemma FailingFirstPass(links: set<string>, s: State, session: Session, diff: Diff, parse: Neigh.LinkLayerParser)
    requires IsDiff(session, diff)
    requires PerformAll(Family.V4, s.v4, V4Passes.IpActions(links, session.v4, diff.v4.ips)).1 != 0
    ensures var (t, error) := ChangeAll(links, s, session, diff, parse);
            && error == SR_ERR_CALLBACK_FAILED && t.neighbors == s.neighbors && t.v6 == s.v6
            && forall a: KernelAddr | V4Passes.Survives(session.v4, a.key) :: a in t.v4.addrs <==> a in s.v4.addrs
  {
    hide PerformAll, Neigh.PerformAll, V4Passes.DiffActions, V6.DiffActions, Neigh.DiffActions, Lists;
    V4Passes.FailingPass(links, session.v4, diff.v4, s.v4);
  }

  // ---- one diff ----

  ghost predicate Readable(config: Config, parse: Neigh.LinkLayerParser) {
    V4Passes.Parsable(config.v4) && Neigh.Parses(config.neighbors, parse)
  }

  datatype Config = Config(v4: V4Changes.Config, neighbors: Neigh.Config, v6: V6.Config)

  function SessionOf(before: Config, after: Config): Session {
    Session(V4Changes.Session(before.v4, after.v4), Neigh.Session(before.neighbors, after.neighbors),
      V6.Session(before.v6, after.v6))
  }

  /** The kernel holds the image of a configuration and, apart from it, exactly `rest`. */
  ghost predicate Mirrors(s: State, config: Config, rest: Rest, parse: Neigh.LinkLayerParser)
    requires Readable(config, parse)
  {
    && s.v4.addrs == Image(V4Passes.Effective(config.v4)) + rest.v4 && rest.v4 !! Image(V4Passes.Effective(config.v4))
    && s.neighbors == Neigh.Image(config.neighbors, parse) + rest.neighbors
      && rest.neighbors.Keys !! config.neighbors.Keys
    && s.v6.addrs == Image(config.v6) + rest.v6 && rest.v6 !! Image(config.v6)
  }

  datatype Rest = Rest(v4: set<KernelAddr>, neighbors: Neigh.Table, v6: set<KernelAddr>)

  /** Every changed entry has its link, every link-layer address parses, and no new address
      collides with the rest. */
  ghost predicate Accepted(links: set<string>, before: Config, after: Config, rest: Rest, parse: Neigh.LinkLayerParser)
    requires V4Passes.Parsable(before.v4) && V4Passes.Parsable(after.v4)
  {
    var session := SessionOf(before, after);
    && V4Passes.LinksPresent(links, session.v4) && V4Passes.NoCollisions(rest.v4, session.v4)
    && Neigh.LinksPresent(links, session.neighbors) && Neigh.Parses(after.neighbors, parse)
    && V6.LinksPresent(links, session.v6)
    && NoCollision(Family.V6, rest.v6, before.v6, after.v6, V6.Touched(session.v6))
  }

  /** No surviving IPv4 address changes its length along with its subnet form, and a known
      neighbour that becomes a configured one has the configured address already. */
  ghost predicate Faithful(before: Config, after: Config, rest: Rest, parse: Neigh.LinkLayerParser)
    requires V4Passes.Parsable(before.v4) && V4Passes.Parsable(after.v4)
  {
    && V4Passes.NoFormSwitch(V4Changes.Session(before.v4, after.v4))
    && Neigh.KnownOnesAgree(Neigh.Session(before.neighbors, after.neighbors), rest.neighbors, parse)
  }

  /** What is left of the rest when known neighbours have become configured ones. */
  function Remaining(rest: Rest, after: Config): Rest {
    rest.(neighbors := rest.neighbors - after.neighbors.Keys)
  }

  /** For any diff, in any event order of each pass: the subscription succeeds exactly when
      the change is accepted; then the kernel goes from the image of the old configuration
      to that of the new one, with the remaining rest, exactly when the change is faithful. */
  lemma ChangeReconciles(links: set<string>, s: State, before: Config, after: Config, rest: Rest, diff: Diff,
      parse: Neigh.LinkLayerParser)
    requires Readable(before, parse) && V4Passes.Parsable(after.v4) && IsDiff(SessionOf(before, after), diff)
    requires Mirrors(s, before, rest, parse)
    ensures var (t, error) := ChangeAll(links, s, SessionOf(before, after), diff, parse);
            && (error == SR_ERR_OK <==> Accepted(links, before, after, rest, parse))
            && (error == SR_ERR_OK ==>
                  (Mirrors(t, after, Remaining(rest, after), parse) <==> Faithful(before, after, rest, parse)))
  {
    hide PerformAll, Neigh.PerformAll, V4Passes.DiffActions, V6.DiffActions, Neigh.DiffActions, Lists, Image,
      Neigh.Image, V4Passes.Effective, V4Passes.Parsable, V4Passes.NoFormSwitch, V4Passes.NoCollisions,
      V4Passes.LinksPresent, V6.LinksPresent, Neigh.LinksPresent, NoCollision, V6.Touched, Neigh.Parses,
      Neigh.KnownOnesAgree;
    var session := SessionOf(before, after);
    assert s.v4.addrs - Image(V4Passes.Effective(before.v4)) == rest.v4;
    assert s.v6.addrs - Image(before.v6) == rest.v6;
    OldNeighbors(s.neighbors, before.neighbors, rest.neighbors, parse);
    V4Passes.DiffReconciles(links, session.v4, diff.v4, s.v4);
    Neigh.DiffReconciles(links, session.neighbors, diff.neighbors, s.neighbors, parse);
    V6.DiffReconciles(links, session.v6, diff.v6, s.v6);
    if Accepted(links, before, after, rest, parse) {
      NeighborRest(before.neighbors, after.neighbors, rest.neighbors, parse);
      V6StaysUnrelated(rest.v6, session.v6);
      if V4Passes.NoFormSwitch(session.v4) {
        V4Passes.StaysUnrelated(rest.v4, session.v4);
      }
    }
  }

  lemma OldNeighbors(table: Neigh.Table, before: Neigh.Config, rest: Neigh.Table, parse: Neigh.LinkLayerParser)
    requires Neigh.Parses(before, parse)
    requires table == Neigh.Image(before, parse) + rest && rest.Keys !! before.Keys
    ensures forall k | k in before :: k in table && table[k] == Neigh.Image(before, parse)[k]
    ensures table - before.Keys == rest
  {
  }

  lemma NeighborRest(before: Neigh.Config, after: Neigh.Config, rest: Neigh.Table, parse: Neigh.LinkLayerParser)
    requires Neigh.Parses(after, parse) && rest.Keys !! before.Keys
    ensures Neigh.Image(after, parse) + rest == Neigh.Image(after, parse) + (rest - after.Keys) <==>
            Neigh.KnownOnesAgree(Neigh.Session(before, after), rest, parse)
  {
    var image, kept := Neigh.Image(after, parse), rest - after.Keys;
    assert forall k :: k in image + rest <==> k in image + kept;
    forall k | k in rest && k in after
      ensures (image + rest)[k] == rest[k] && (image + kept)[k] == image[k] && image[k] == parse(after[k]).value
    {
    }
  }

  lemma V6StaysUnrelated(rest: set<KernelAddr>, session: V6.Session)
    requires rest !! Image(session.running)
    requires NoCollision(Family.V6, rest, session.running, session.candidate, V6.Touched(session))
    ensures rest !! Image(session.candidate)
  {
    forall a | a in Image(session.candidate)
      ensures a !in rest
    {
      InImage(session.candidate, a);
      InImage(session.running, a);
      assert a.key in session.candidate;
    }
  }

  // ---- whole runs ----

  /** Applying one diff after another; `diffs[i]` leads from `configs[i]` to `configs[i + 1]`
      and the system then has the links `links[i]`. */
  ghost predicate IsHistory(links: seq<set<string>>, configs: seq<Config>, diffs: seq<Diff>,
      parse: Neigh.LinkLayerParser) {
    && |configs| == |diffs| + 1 && |links| == |diffs|
    && (forall i | 0 <= i < |configs| :: Readable(configs[i], parse))
    && (forall i | 0 <= i < |diffs| :: IsDiff(SessionOf(configs[i], configs[i + 1]), diffs[i]))
  }

  ghost function RunChanges(links: seq<set<string>>, s: State, configs: seq<Config>, diffs: seq<Diff>,
      parse: Neigh.LinkLayerParser): (State, SrError)
    requires IsHistory(links, configs, diffs, parse)
    decreases |diffs|
  {
    if diffs == [] then (s, SR_ERR_OK) else
      TailHistory(links, configs, diffs, parse);
      var (t, error) := ChangeAll(links[0], s, SessionOf(configs[0], configs[1]), diffs[0], parse);
      if error != SR_ERR_OK then (t, error) else RunChanges(links[1..], t, configs[1..], diffs[1..], parse)
  }

  lemma TailHistory(links: seq<set<string>>, configs: seq<Config>, diffs: seq<Diff>, parse: Neigh.LinkLayerParser)
    requires IsHistory(links, configs, diffs, parse) && diffs != []
    ensures IsHistory(links[1..], configs[1..], diffs[1..], parse)
  {
    hide IsDiff;
    var cs, ds := configs[1..], diffs[1..];
    forall i | 0 <= i < |ds|
      ensures IsDiff(SessionOf(cs[i], cs[i + 1]), ds[i])
    {
      assert ds[i] == diffs[i + 1] && cs[i] == configs[i + 1] && cs[i + 1] == configs[i + 2];
    }
  }

  /** The rest after all changes: without the neighbours that were ever configured. */
  function RestAfter(rest: Rest, configs: seq<Config>): Rest
    decreases |configs|
  {
    if |configs| <= 1 then rest else RestAfter(Remaining(rest, configs[1]), configs[1..])
  }

  /** Every change of the run is accepted and faithful, given the rest it meets. */
  ghost predicate AllAllowed(links: seq<set<string>>, configs: seq<Config>, diffs: seq<Diff>, rest: Rest,
      parse: Neigh.LinkLayerParser)
    requires IsHistory(links, configs, diffs, parse)
    decreases |diffs|
  {
    diffs == [] ||
    (TailHistory(links, configs, diffs, parse);
     Accepted(links[0], configs[0], configs[1], rest, parse) && Faithful(configs[0], configs[1], rest, parse)
     && AllAllowed(links[1..], configs[1..], diffs[1..], Remaining(rest, configs[1]), parse))
  }

  /** Over any run of accepted and faithful changes every callback succeeds, and the kernel
      always holds the image of the last configuration and what remains of the rest it
      started with. */
  lemma {:induction false} RunReconciles(links: seq<set<string>>, s: State, configs: seq<Config>, diffs: seq<Diff>,
      rest: Rest, parse: Neigh.LinkLayerParser)
    requires IsHistory(links, configs, diffs, parse) && Mirrors(s, configs[0], rest, parse)
    requires AllAllowed(links, configs, diffs, rest, parse)
    ensures var (t, error) := RunChanges(links, s, configs, diffs, parse);
            error == SR_ERR_OK && Mirrors(t, configs[|diffs|], RestAfter(rest, configs), parse)
    decreases |diffs|
  {
    hide ChangeAll, Accepted, Faithful, Mirrors, V4Passes.Parsable, Neigh.Parses, HasPrevious, Lists, Remaining;
    if diffs != [] {
      TailHistory(links, configs, diffs, parse);
      ChangeReconciles(links[0], s, configs[0], configs[1], rest, diffs[0], parse);
      var (t, error) := ChangeAll(links[0], s, SessionOf(configs[0], configs[1]), diffs[0], parse);
      RunReconciles(links[1..], t, configs[1..], diffs[1..], Remaining(rest, configs[1]), parse);
    }
  }
}
