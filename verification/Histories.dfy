/** What holds since some step of a history. */
module Histories {

  type Steps = nat -> bool

  /** Some step before `n` started it, and no step between has ended it. */
  ghost predicate Since(starts: Steps, ends: Steps, n: nat) {
    exists i: nat :: i < n && starts(i) && NoneBetween(ends, i, n)
  }

  ghost predicate NoneBetween(ends: Steps, i: nat, n: nat) {
    forall j: nat :: i < j < n ==> !ends(j)
  }

  lemma SinceNext(starts: Steps, ends: Steps, n: nat)
    ensures Since(starts, ends, n + 1) <==> starts(n) || (Since(starts, ends, n) && !ends(n))
  {
    if Since(starts, ends, n) && !ends(n) {
      var i: nat :| i < n && starts(i) && NoneBetween(ends, i, n);
      assert NoneBetween(ends, i, n + 1);
    }
    if Since(starts, ends, n + 1) {
      var i: nat :| i < n + 1 && starts(i) && NoneBetween(ends, i, n + 1);
      if i < n {
        assert NoneBetween(ends, i, n);
      }
    }
    assert NoneBetween(ends, n, n + 1);
  }
}
