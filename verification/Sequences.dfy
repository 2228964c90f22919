/** Sequences without repetition. */
module Sequences {
  ghost predicate Distinct<T>(s: seq<T>) {
    forall i, j | 0 <= i < j < |s| :: s[i] != s[j]
  }

  lemma {:induction false} Pigeonhole<T>(some: seq<T>, all: seq<T>)
    requires Distinct(some) && forall x | x in some :: x in all
    ensures |some| <= |all|
    decreases |some|
  {
    if some != [] {
      var n := |some| - 1;
      assert some[n] in all;
      var j :| 0 <= j < |all| && all[j] == some[n];
      var others := all[..j] + all[j + 1..];
      assert all == all[..j] + [all[j]] + all[j + 1..];
      forall i | 0 <= i < n
        ensures some[i] in others
      {
        assert some[i] in all && some[i] != some[n];
      }
      Pigeonhole(some[..n], others);
    }
  }
}
