/** When a batch of address actions moves the kernel from the image of one configuration
    to the image of another. Shared by the IPv4 and the IPv6 passes. */
module Reconciliation {
  import opened AddressActions
  import opened Changes

  /** Prefix length per configured address. */
  type Lengths = map<AddrKey, nat>

  function Image(lengths: Lengths): set<KernelAddr> {
    set k | k in lengths :: KernelAddr(k, lengths[k])
  }

  /** The one action that address `k` calls for; `touched` are the surviving addresses
      for which the diff has a modified leaf. */
  function Expected(before: Lengths, after: Lengths, touched: set<AddrKey>, k: AddrKey): Action {
    if k !in before && k in after then Put(KernelAddr(k, after[k]))
    else if k in before && k !in after then Drop(KernelAddr(k, before[k]))
    else if k in before && k in after && k in touched then Swap(KernelAddr(k, before[k]), KernelAddr(k, after[k]))
    else Skip
  }

  /** The actions are the expected ones, one per address, plus possibly failures. */
  ghost predicate Realises(actions: seq<Action>, before: Lengths, after: Lengths, touched: set<AddrKey>) {
    && Independent(actions)
    && (forall action | action in actions && Active(action) ::
          action == Expected(before, after, touched, KeyOf(action)))
    && (Fail !in actions ==> forall k | Active(Expected(before, after, touched, k)) ::
          Expected(before, after, touched, k) in actions)
  }

  /** No address to be put into the kernel collides with an unrelated one. */
  ghost predicate NoCollision(family: Family, unrelated: set<KernelAddr>, before: Lengths, after: Lengths,
      touched: set<AddrKey>) {
    forall k | k in after && Active(Expected(before, after, touched, k)) ::
      !Refuses(family, unrelated, KernelAddr(k, after[k]))
  }

  /** Every surviving address whose prefix length changes has a modified leaf. */
  ghost predicate AllTouched(before: Lengths, after: Lengths, touched: set<AddrKey>) {
    forall k | k in before && k in after && k !in touched :: before[k] == after[k]
  }

  lemma InImage(lengths: Lengths, a: KernelAddr)
    ensures a in Image(lengths) <==> a.key in lengths && lengths[a.key] == a.length
  {
    if a.key in lengths && lengths[a.key] == a.length {
      assert a == KernelAddr(a.key, lengths[a.key]);
    }
  }

  lemma ExpectedSucceeds(family: Family, addrs: set<KernelAddr>, before: Lengths, after: Lengths, touched: set<AddrKey>,
      k: AddrKey)
    requires Image(before) <= addrs && Active(Expected(before, after, touched, k))
    ensures Succeeds(family, addrs, Expected(before, after, touched, k)) <==>
            (k in after ==> !Refuses(family, addrs - Image(before), KernelAddr(k, after[k])))
  {
    forall a: KernelAddr | a.key == k
      ensures a in Image(before) <==> k in before && before[k] == a.length
    {
      InImage(before, a);
    }
    if k in before {
      assert KernelAddr(k, before[k]) in Image(before);
    }
  }

  lemma RemovedIff(actions: seq<Action>, before: Lengths, after: Lengths, touched: set<AddrKey>, a: KernelAddr)
    requires Realises(actions, before, after, touched) && Fail !in actions
    ensures RemovedBy(actions, a) <==> Removes(Expected(before, after, touched, a.key), a)
    ensures AddedBy(actions, a) <==> Adds(Expected(before, after, touched, a.key), a)
  {
  }

  /** The run succeeds exactly when nothing fails outright and no new address collides;
      then the kernel holds the image of the new configuration and the same unrelated
      addresses exactly when every changed survivor has a modified leaf. */
  lemma RunReconciles(family: Family, s: AddrState, actions: seq<Action>, before: Lengths, after: Lengths,
      touched: set<AddrKey>)
    requires Realises(actions, before, after, touched) && Image(before) <= s.addrs
    ensures var unrelated := s.addrs - Image(before);
            var (t, error) := PerformAll(family, s, actions);
            && (error == 0 <==> Fail !in actions && NoCollision(family, unrelated, before, after, touched))
            && (error == 0 ==> (t.addrs == Image(after) + unrelated <==> AllTouched(before, after, touched)))
  {
    hide PerformAll, Refuses;
    var unrelated := s.addrs - Image(before);
    var (t, error) := PerformAll(family, s, actions);
    IndependentRun(family, s, actions);
    SuccessIff(family, s.addrs, actions, before, after, touched);
    if error == 0 {
      forall a
        ensures a in t.addrs <==> (a in s.addrs && !Removes(Expected(before, after, touched, a.key), a))
                                  || Adds(Expected(before, after, touched, a.key), a)
      {
        RemovedIff(actions, before, after, touched, a);
      }
      FinalIff(s.addrs, t.addrs, before, after, touched);
    }
  }

  lemma SuccessIff(family: Family, addrs: set<KernelAddr>, actions: seq<Action>, before: Lengths, after: Lengths,
      touched: set<AddrKey>)
    requires Realises(actions, before, after, touched) && Image(before) <= addrs
    ensures (forall action | action in actions :: Succeeds(family, addrs, action)) <==>
            Fail !in actions && NoCollision(family, addrs - Image(before), before, after, touched)
  {
    hide Refuses, Image, Independent;
    if Fail !in actions {
      forall k | Active(Expected(before, after, touched, k))
        ensures Succeeds(family, addrs, Expected(before, after, touched, k)) <==>
                (k in after ==> !Refuses(family, addrs - Image(before), KernelAddr(k, after[k])))
      {
        ExpectedSucceeds(family, addrs, before, after, touched, k);
      }
      forall action | action in actions && !Active(action)
        ensures Succeeds(family, addrs, action)
      {
        assert action == Skip;
      }
    }
  }

  lemma FinalIff(start: set<KernelAddr>, end: set<KernelAddr>, before: Lengths, after: Lengths, touched: set<AddrKey>)
    requires Image(before) <= start
    requires forall a :: a in end <==> (a in start && !Removes(Expected(before, after, touched, a.key), a))
                                       || Adds(Expected(before, after, touched, a.key), a)
    ensures end == Image(after) + (start - Image(before)) <==> AllTouched(before, after, touched)
  {
    var wanted := Image(after) + (start - Image(before));
    if AllTouched(before, after, touched) {
      forall a
        ensures a in end <==> a in wanted
      {
        InImage(before, a);
        InImage(after, a);
      }
    } else {
      var k :| k in before && k in after && k !in touched && before[k] != after[k];
      var stale := KernelAddr(k, before[k]);
      InImage(before, stale);
      InImage(after, stale);
      assert stale in end && stale !in wanted;
    }
  }
}
