/** The oper-state tracker: interfaces_init_state_changes_tracking and
    interfaces_link_cache_change_cb (src/interfaces/src/plugin.c) over the table of
    src/interfaces/src/plugin/data/interfaces/interface_state.c. */
module StateTracker {

  datatype Link = Link(name: string, operState: int)

  datatype Entry = Entry(state: int, lastChange: int)

  /** One link as the tracker meets it, with the readings that the first and the second
      call of time(NULL) give while it is being processed. */
  datatype Observation = Observation(link: Link, first: int, second: int)

  type StateTable = map<string, Entry>

  /** What a callback does with one link: a new entry takes the first reading, a changed
      state takes the second one, anything else changes nothing. */
  function Observe(table: StateTable, o: Observation): StateTable {
    if o.link.name !in table then table[o.link.name := Entry(o.link.operState, o.first)]
    else if table[o.link.name].state != o.link.operState then table[o.link.name := Entry(o.link.operState, o.second)]
    else table
  }

  function ObserveAll(table: StateTable, trace: seq<Observation>): StateTable {
    if trace == [] then table else Observe(ObserveAll(table, trace[..|trace| - 1]), trace[|trace| - 1])
  }

  lemma {:induction false} ObserveAppend(table: StateTable, a: seq<Observation>, b: seq<Observation>)
    ensures ObserveAll(table, a + b) == ObserveAll(ObserveAll(table, a), b)
  {
    if b == [] {
      assert a + b == a;
    } else {
      assert (a + b)[..|a + b| - 1] == a + b[..|b| - 1];
      ObserveAppend(table, a, b[..|b| - 1]);
    }
  }

  class Tracker {
    var stateHash: StateTable

    constructor ()
      ensures stateHash == map[]
    {
      stateHash := map[];
    }

    /** interfaces_interface_state_hash_add: -1 when the name is already there. */
    method HashAdd(name: string, entry: Entry) returns (error: int)
      modifies this
      ensures error == if name in old(stateHash) then -1 else 0
      ensures stateHash == if error == 0 then old(stateHash)[name := entry] else old(stateHash)
    {
      if name in stateHash {
        return -1;
      }
      stateHash := stateHash[name := entry];
      error := 0;
    }

    /** The first scan. Two links with one name make it fail at the second one. */
    method Init(cache: seq<Observation>) returns (error: int)
      modifies this
      ensures error == if Unique(cache) then 0 else -1
      ensures error == 0 ==> stateHash == ObserveAll(map[], cache)
      ensures error != 0 ==> exists n: nat ::
                n < |cache| && Unique(cache[..n]) && Seen(cache[..n], cache[n].link.name)
                && stateHash == ObserveAll(map[], cache[..n])
    {
      stateHash := map[];
      error := 0;
      for i := 0 to |cache|
        invariant error == 0 && Unique(cache[..i]) && stateHash == ObserveAll(map[], cache[..i])
      {
        assert cache[..i + 1][..i] == cache[..i];
        NamesSeen(map[], cache[..i], cache[i].link.name);
        error := HashAdd(cache[i].link.name, Entry(cache[i].link.operState, cache[i].first));
        if error != 0 {
          error := -1;
          return;
        }
      }
      assert cache[..|cache|] == cache;
    }

    /** The callback: a rescan of the whole link cache. */
    method LinkCacheChange(cache: seq<Observation>)
      modifies this
      ensures stateHash == ObserveAll(old(stateHash), cache)
    {
      for i := 0 to |cache|
        invariant stateHash == ObserveAll(old(stateHash), cache[..i])
      {
        assert cache[..i + 1][..i] == cache[..i];
        var name := cache[i].link.name;
        if name in stateHash {
          var element := stateHash[name];
          if cache[i].link.operState != element.state {
            element := element.(state := cache[i].link.operState);
            element := element.(lastChange := cache[i].second);
            stateHash := stateHash[name := element];
          }
        } else {
          var _ := HashAdd(name, Entry(cache[i].link.operState, cache[i].first));
        }
      }
      assert cache[..|cache|] == cache;
    }
  }

  ghost predicate Unique(cache: seq<Observation>) {
    forall i, j | 0 <= i < j < |cache| :: cache[i].link.name != cache[j].link.name
  }

  ghost predicate Seen(trace: seq<Observation>, name: string) {
    exists i | 0 <= i < |trace| :: trace[i].link.name == name
  }

  /** One entry per name ever seen, and no other. */
  lemma {:induction false} NamesSeen(table: StateTable, trace: seq<Observation>, name: string)
    ensures name in ObserveAll(table, trace) <==> name in table || Seen(trace, name)
  {
    if trace != [] {
      var n := |trace| - 1;
      NamesSeen(table, trace[..n], name);
      assert Seen(trace, name) <==> Seen(trace[..n], name) || trace[n].link.name == name;
    }
  }

  // ---- the trace of a whole run ----

  /** The latest observation of `name`, or -1. */
  function LastSeen(trace: seq<Observation>, name: string): (i: int)
    ensures -1 <= i < |trace|
    ensures i >= 0 ==> trace[i].link.name == name
    ensures forall m | i < m < |trace| :: trace[m].link.name != name
  {
    if trace == [] then -1
    else if trace[|trace| - 1].link.name == name then |trace| - 1
    else LastSeen(trace[..|trace| - 1], name)
  }

  /** Observation `i` starts a new state of its link: it is the first one of that name, or
      the previous one had a different oper-state. */
  predicate ChangePoint(trace: seq<Observation>, i: nat)
    requires i < |trace|
  {
    var before := LastSeen(trace[..i], trace[i].link.name);
    before == -1 || trace[before].link.operState != trace[i].link.operState
  }

  /** The clock reading that goes with a change point. */
  function Reading(trace: seq<Observation>, i: nat): int
    requires i < |trace|
  {
    if LastSeen(trace[..i], trace[i].link.name) == -1 then trace[i].first else trace[i].second
  }

  /** `change` is the last change point of `name`. */
  ghost predicate LastChangePoint(trace: seq<Observation>, name: string, change: nat) {
    && change < |trace| && trace[change].link.name == name && ChangePoint(trace, change)
    && forall m | change < m < |trace| && trace[m].link.name == name :: !ChangePoint(trace, m)
  }

  lemma PrefixFacts(trace: seq<Observation>, n: nat, i: nat)
    requires i < n <= |trace|
    ensures ChangePoint(trace[..n], i) <==> ChangePoint(trace, i)
    ensures Reading(trace[..n], i) == Reading(trace, i)
  {
    assert trace[..n][..i] == trace[..i];
  }

  /** One more observation that is not a change point of `name`. */
  lemma ChangePointKept(trace: seq<Observation>, name: string, change: nat)
    requires trace != [] && LastChangePoint(trace[..|trace| - 1], name, change)
    requires trace[|trace| - 1].link.name == name ==> !ChangePoint(trace, |trace| - 1)
    ensures LastChangePoint(trace, name, change)
    ensures Reading(trace, change) == Reading(trace[..|trace| - 1], change)
  {
    hide ChangePoint, Reading;
    var n := |trace| - 1;
    PrefixFacts(trace, n, change);
    forall m | change < m < |trace| && trace[m].link.name == name
      ensures !ChangePoint(trace, m)
    {
      if m < n {
        PrefixFacts(trace, n, m);
      }
    }
  }

  /** Over any run from the empty table, every entry shows the state of the last
      observation of its name and the clock reading of the latest observation that was
      the first or differed from its predecessor. */
  lemma {:induction false} EntryShowsTrace(trace: seq<Observation>, name: string) returns (change: nat)
    requires LastSeen(trace, name) != -1
    ensures LastChangePoint(trace, name, change)
    ensures name in ObserveAll(map[], trace)
    ensures ObserveAll(map[], trace)[name] ==
            Entry(trace[LastSeen(trace, name)].link.operState, Reading(trace, change))
  {
    hide LastChangePoint, Reading;
    var n := |trace| - 1;
    var init := trace[..n];
    if trace[n].link.name != name {
      change := EntryShowsTrace(init, name);
      ChangePointKept(trace, name, change);
    } else if LastSeen(init, name) == -1 || trace[LastSeen(init, name)].link.operState != trace[n].link.operState {
      change := n;
      FreshChange(trace);
      if LastSeen(init, name) == -1 {
        Unseen(init, name);
      } else {
        var _ := EntryShowsTrace(init, name);
      }
    } else {
      change := EntryShowsTrace(init, name);
      ChangePointKept(trace, name, change);
    }
  }

  lemma FreshChange(trace: seq<Observation>)
    requires trace != [] && ChangePoint(trace, |trace| - 1)
    ensures LastChangePoint(trace, trace[|trace| - 1].link.name, |trace| - 1)
    ensures var n := |trace| - 1;
            Reading(trace, n) ==
              if LastSeen(trace[..n], trace[n].link.name) == -1 then trace[n].first else trace[n].second
  {
  }

  lemma Unseen(trace: seq<Observation>, name: string)
    requires LastSeen(trace, name) == -1
    ensures name !in ObserveAll(map[], trace)
  {
    NamesSeen(map[], trace, name);
  }

  // ---- agreement with the current cache ----

  /** After a rescan the table agrees with the cache on every link in it. When a name
      occurs more than once, the last occurrence counts. */
  lemma {:induction false} AgreesAfterScan(table: StateTable, cache: seq<Observation>, i: nat)
    requires i < |cache| && forall m | i < m < |cache| :: cache[m].link.name != cache[i].link.name
    ensures var after := ObserveAll(table, cache);
            cache[i].link.name in after && after[cache[i].link.name].state == cache[i].link.operState
  {
    var n := |cache| - 1;
    if i < n {
      AgreesAfterScan(table, cache[..n], i);
    }
  }

  /** With unique names that is every link of the cache. */
  lemma AgreesOnUniqueNames(table: StateTable, cache: seq<Observation>)
    requires Unique(cache)
    ensures forall o | o in cache ::
              o.link.name in ObserveAll(table, cache) && ObserveAll(table, cache)[o.link.name].state == o.link.operState
  {
    forall o | o in cache
      ensures o.link.name in ObserveAll(table, cache) && ObserveAll(table, cache)[o.link.name].state == o.link.operState
    {
      var i :| 0 <= i < |cache| && cache[i] == o;
      AgreesAfterScan(table, cache, i);
    }
  }

  // ---- the clock ----

  /** The readings never go back, within an observation and from one to the next. */
  ghost predicate Monotone(trace: seq<Observation>) {
    && (forall i | 0 <= i < |trace| :: trace[i].first <= trace[i].second)
    && (forall i, j | 0 <= i < j < |trace| :: trace[i].second <= trace[j].first)
  }

  lemma {:induction false} EntriesInThePast(trace: seq<Observation>, name: string)
    requires Monotone(trace) && name in ObserveAll(map[], trace)
    ensures trace != [] && ObserveAll(map[], trace)[name].lastChange <= trace[|trace| - 1].second
  {
    var n := |trace| - 1;
    if name in ObserveAll(map[], trace[..n]) {
      EntriesInThePast(trace[..n], name);
    }
  }

  /** A recorded change time never decreases as the run goes on. */
  lemma {:induction false} LastChangeNeverDecreases(trace: seq<Observation>, n: nat, name: string)
    requires Monotone(trace) && n <= |trace| && name in ObserveAll(map[], trace[..n])
    ensures name in ObserveAll(map[], trace)
    ensures ObserveAll(map[], trace[..n])[name].lastChange <= ObserveAll(map[], trace)[name].lastChange
    decreases |trace|
  {
    if n == |trace| {
      assert trace[..n] == trace;
    } else {
      var last := |trace| - 1;
      assert trace[..last][..n] == trace[..n];
      LastChangeNeverDecreases(trace[..last], n, name);
      EntriesInThePast(trace[..last], name);
    }
  }

  /** A run is the first scan followed by callbacks: its table is that of the one trace
      which the scans make up together. */
  function Join(scans: seq<seq<Observation>>): seq<Observation> {
    if scans == [] then [] else Join(scans[..|scans| - 1]) + scans[|scans| - 1]
  }

  function RunScans(scans: seq<seq<Observation>>): StateTable {
    if scans == [] then map[] else ObserveAll(RunScans(scans[..|scans| - 1]), scans[|scans| - 1])
  }

  lemma {:induction false} RunIsTrace(scans: seq<seq<Observation>>)
    ensures RunScans(scans) == ObserveAll(map[], Join(scans))
  {
    if scans != [] {
      var n := |scans| - 1;
      RunIsTrace(scans[..n]);
      ObserveAppend(map[], Join(scans[..n]), scans[n]);
    }
  }
}
