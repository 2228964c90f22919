/** The sysrepo diff as the change callbacks of the interfaces plugin see it. */
module Changes {
  import opened Wrappers
  import opened Sysrepo

  /** The list keys that a leaf's path carries. */
  datatype AddrKey = AddrKey(link: string, ip: string)

  /** One change handed to a callback; leaves of different types carry different values. */
  datatype Change<+V> = Change(op: Operation, key: AddrKey, value: V, previous: Option<V>)

  /** The diff entry of one leaf. */
  function LeafChange<V(==)>(key: AddrKey, before: Option<V>, after: Option<V>): Option<Change<V>> {
    match (before, after)
    case (None, Some(v)) => Some(Change(Created, key, v, None))
    case (Some(v), None) => Some(Change(Deleted, key, v, None))
    case (Some(v), Some(w)) => if v == w then None else Some(Change(Modified, key, w, Some(v)))
    case (None, None) => None
  }

  /** `events` enumerates a diff: every change once, in any order. */
  ghost predicate Lists<V(!new)>(events: seq<Change<V>>, diff: AddrKey -> Option<Change<V>>) {
    && (forall i | 0 <= i < |events| :: diff(events[i].key) == Some(events[i]))
    && (forall i, j | 0 <= i < j < |events| :: events[i].key != events[j].key)
    && (forall k | diff(k).Some? :: diff(k).value in events)
  }

  predicate HasPrevious<V>(events: seq<Change<V>>) {
    forall i | 0 <= i < |events| :: events[i].op.Modified? ==> events[i].previous.Some?
  }

  lemma EventAt<V(!new)>(events: seq<Change<V>>, diff: AddrKey -> Option<Change<V>>, k: AddrKey) returns (i: nat)
    requires Lists(events, diff) && diff(k).Some?
    requires forall k | diff(k).Some? :: diff(k).value.key == k
    ensures i < |events| && events[i].key == k && events[i] == diff(k).value
  {
    i :| 0 <= i < |events| && events[i] == diff(k).value;
  }
}
