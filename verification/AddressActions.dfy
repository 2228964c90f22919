/** Address requests on the kernel, and why requests for different addresses do not
    disturb one another. Shared by the IPv4 and the IPv6 passes. */
module AddressActions {
  import opened Changes

  datatype KernelAddr = KernelAddr(key: AddrKey, length: nat)

  datatype Family = V4 | V6

  datatype Request = AddAddr(addr: KernelAddr) | DeleteAddr(addr: KernelAddr)

  /** The kernel's addresses of one family and the netlink requests it has received. */
  datatype AddrState = AddrState(addrs: set<KernelAddr>, requests: seq<Request>)

  /** An IPv4 address may be added with several prefix lengths, an IPv6 address once. */
  predicate Refuses(family: Family, addrs: set<KernelAddr>, addr: KernelAddr) {
    if family.V4? then addr in addrs else exists a | a in addrs :: a.key == addr.key
  }

  /** The kernel's answer (0 or an error) to one request, and its next state. */
  function Submit(family: Family, s: AddrState, request: Request): (AddrState, int) {
    var logged := s.(requests := s.requests + [request]);
    match request
    case AddAddr(addr) =>
      if Refuses(family, s.addrs, addr) then (logged, -17) else (logged.(addrs := s.addrs + {addr}), 0)
    case DeleteAddr(addr) =>
      if addr in s.addrs then (logged.(addrs := s.addrs - {addr}), 0) else (logged, -99)
  }

  /** What a change callback asks of the kernel. */
  datatype Action =
    | Skip
    | Fail
    | Put(addr: KernelAddr)
    | Drop(addr: KernelAddr)
    | Swap(before: KernelAddr, after: KernelAddr)

  function Perform(family: Family, s: AddrState, action: Action): (AddrState, int) {
    match action
    case Skip => (s, 0)
    case Fail => (s, -1)
    case Put(addr) =>
      var (t, rc) := Submit(family, s, AddAddr(addr));
      (t, if rc == 0 then 0 else -1)
    case Drop(addr) =>
      var (t, rc) := Submit(family, s, DeleteAddr(addr));
      (t, if rc == 0 then 0 else -1)
    case Swap(before, after) =>
      var (t, rc) := Submit(family, s, DeleteAddr(before));
      if rc != 0 then (t, -1) else
        var (u, rc') := Submit(family, t, AddAddr(after));
        (u, if rc' == 0 then 0 else -1)
  }

  /** Performing actions until the first error. */
  function PerformAll(family: Family, s: AddrState, actions: seq<Action>): (AddrState, int)
    decreases |actions|
  {
    if actions == [] then (s, 0) else
      var (t, error) := Perform(family, s, actions[0]);
      if error != 0 then (t, error) else PerformAll(family, t, actions[1..])
  }

  lemma {:induction false} PerformSplit(family: Family, s: AddrState, a: seq<Action>, b: seq<Action>)
    ensures var (t, error) := PerformAll(family, s, a);
            PerformAll(family, s, a + b) == if error != 0 then (t, error) else PerformAll(family, t, b)
    decreases |a|
  {
    if a == [] {
      assert a + b == b;
    } else {
      assert (a + b)[0] == a[0] && (a + b)[1..] == a[1..] + b;
      PerformSplit(family, Perform(family, s, a[0]).0, a[1..], b);
    }
  }

  /** The netlink socket's far end. */
  class Kernel {
    const family: Family
    var state: AddrState

    constructor (family: Family, state: AddrState)
      ensures this.family == family && this.state == state
    {
      this.family, this.state := family, state;
    }

    method AddrAdd(addr: KernelAddr) returns (error: int)
      modifies this
      ensures (state, error) == Submit(family, old(state), AddAddr(addr))
    {
      var (s, rc) := Submit(family, state, AddAddr(addr));
      state, error := s, rc;
    }

    method AddrDelete(addr: KernelAddr) returns (error: int)
      modifies this
      ensures (state, error) == Submit(family, old(state), DeleteAddr(addr))
    {
      var (s, rc) := Submit(family, state, DeleteAddr(addr));
      state, error := s, rc;
    }
  }

  // ---- independence ----

  predicate Active(action: Action) {
    action.Put? || action.Drop? || action.Swap?
  }

  predicate WellFormed(action: Action) {
    action.Swap? ==> action.before.key == action.after.key
  }

  function KeyOf(action: Action): AddrKey
    requires Active(action)
  {
    match action
    case Put(addr) => addr.key
    case Drop(addr) => addr.key
    case Swap(before, _) => before.key
  }

  /** Would this action, done first, succeed on these addresses? */
  predicate Succeeds(family: Family, addrs: set<KernelAddr>, action: Action) {
    match action
    case Skip => true
    case Fail => false
    case Put(addr) => !Refuses(family, addrs, addr)
    case Drop(addr) => addr in addrs
    case Swap(before, after) => before in addrs && !Refuses(family, addrs - {before}, after)
  }

  predicate Removes(action: Action, addr: KernelAddr) {
    (action.Drop? && action.addr == addr) || (action.Swap? && action.before == addr)
  }

  predicate Adds(action: Action, addr: KernelAddr) {
    (action.Put? && action.addr == addr) || (action.Swap? && action.after == addr)
  }

  /** No two active actions are about the same address. */
  ghost predicate Independent(actions: seq<Action>) {
    && (forall i | 0 <= i < |actions| :: WellFormed(actions[i]))
    && forall i, j | 0 <= i < j < |actions| && Active(actions[i]) && Active(actions[j]) ::
         KeyOf(actions[i]) != KeyOf(actions[j])
  }

  ghost predicate RemovedBy(actions: seq<Action>, addr: KernelAddr) {
    exists action | action in actions :: Removes(action, addr)
  }

  ghost predicate AddedBy(actions: seq<Action>, addr: KernelAddr) {
    exists action | action in actions :: Adds(action, addr)
  }

  lemma PerformEffect(family: Family, s: AddrState, action: Action)
    requires WellFormed(action)
    ensures var (t, error) := Perform(family, s, action);
            && (error == 0 <==> Succeeds(family, s.addrs, action))
            && (error == 0 ==> forall a :: a in t.addrs <==> (a in s.addrs && !Removes(action, a)) || Adds(action, a))
            && (forall a: KernelAddr | !Active(action) || a.key != KeyOf(action) :: a in t.addrs <==> a in s.addrs)
  {
  }

  /** What an action needs depends only on the addresses with its own key. */
  lemma SucceedsLocally(family: Family, x: set<KernelAddr>, y: set<KernelAddr>, action: Action)
    requires WellFormed(action)
    requires Active(action) ==> forall a: KernelAddr | a.key == KeyOf(action) :: a in x <==> a in y
    ensures Succeeds(family, x, action) <==> Succeeds(family, y, action)
  {
  }

  /** For independent actions the order does not matter: the run succeeds exactly when
      every action would succeed on the initial addresses, and then all of them apply. */
  lemma {:induction false} IndependentRun(family: Family, s: AddrState, actions: seq<Action>)
    requires Independent(actions)
    ensures var (t, error) := PerformAll(family, s, actions);
            && (error == 0 <==> forall action | action in actions :: Succeeds(family, s.addrs, action))
            && (error == 0 ==> forall a :: a in t.addrs <==>
              (a in s.addrs && !RemovedBy(actions, a)) || AddedBy(actions, a))
    decreases |actions|
  {
    if actions != [] {
      hide Perform, Succeeds;
      var head, rest := actions[0], actions[1..];
      assert actions == [head] + rest;
      var (t, error) := Perform(family, s, head);
      PerformEffect(family, s, head);
      assert head in actions;
      if error == 0 {
        TailIndependent(actions);
        IndependentRun(family, t, rest);
        forall action | action in rest
          ensures Succeeds(family, s.addrs, action) <==> Succeeds(family, t.addrs, action)
        {
          SucceedsLocally(family, s.addrs, t.addrs, action);
        }
        RunEffect(s.addrs, t.addrs, head, rest);
      }
    }
  }

  /** Actions for other addresses leave an address alone, whether or not one of them fails. */
  lemma {:induction false} OthersUntouched(family: Family, s: AddrState, actions: seq<Action>, key: AddrKey)
    requires forall action | action in actions :: WellFormed(action) && (Active(action) ==> KeyOf(action) != key)
    ensures forall a: KernelAddr | a.key == key :: a in PerformAll(family, s, actions).0.addrs <==> a in s.addrs
    decreases |actions|
  {
    if actions != [] {
      hide Perform, WellFormed, Active;
      assert actions[0] in actions;
      PerformEffect(family, s, actions[0]);
      OthersUntouched(family, Perform(family, s, actions[0]).0, actions[1..], key);
    }
  }

  lemma TailIndependent(actions: seq<Action>)
    requires Independent(actions) && actions != []
    ensures Independent(actions[1..]) && WellFormed(actions[0])
    ensures forall action | action in actions[1..] ::
              WellFormed(action) && (Active(actions[0]) && Active(action) ==> KeyOf(actions[0]) != KeyOf(action))
  {
    var rest := actions[1..];
    assert forall i | 0 <= i < |rest| :: rest[i] == actions[i + 1];
  }

  lemma RunEffect(before: set<KernelAddr>, middle: set<KernelAddr>, head: Action, rest: seq<Action>)
    requires WellFormed(head) && forall action | action in rest ::
               WellFormed(action) && (Active(head) && Active(action) ==> KeyOf(head) != KeyOf(action))
    requires forall a :: a in middle <==> (a in before && !Removes(head, a)) || Adds(head, a)
    ensures forall a :: (a in middle && !RemovedBy(rest, a)) || AddedBy(rest, a) <==>
                        (a in before && !RemovedBy([head] + rest, a)) || AddedBy([head] + rest, a)
  {
    forall a
      ensures RemovedBy([head] + rest, a) <==> Removes(head, a) || RemovedBy(rest, a)
      ensures AddedBy([head] + rest, a) <==> Adds(head, a) || AddedBy(rest, a)
      ensures Adds(head, a) || Removes(head, a) ==> !RemovedBy(rest, a) && !AddedBy(rest, a)
    {
      assert head in [head] + rest;
      assert forall action | action in rest :: action in [head] + rest;
    }
  }
}
