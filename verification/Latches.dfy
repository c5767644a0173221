/** Things that steps of a run gain and lose. */
module Latches {

  /** Something is there after a step if the step gained it, or if it was there and the
      step did not lose it; and it was not there at first. */
  ghost predicate Latch(has: nat -> bool, gained: nat -> bool, lost: nat -> bool, n: nat) {
    && !has(0)
    && forall j: nat | j < n :: has(j + 1) <==> gained(j) || (has(j) && !lost(j))
  }

  /** Step `k` gained it, and no step between `k` and `i` lost it. */
  ghost predicate Stands(gained: nat -> bool, lost: nat -> bool, i: nat, k: nat) {
    k < i && gained(k) && forall j: nat | k < j < i :: !lost(j)
  }

  /** It is there exactly when it was gained and not lost since. */
  lemma {:induction false} LatchHolds(has: nat -> bool, gained: nat -> bool, lost: nat -> bool, i: nat)
    requires Latch(has, gained, lost, i)
    ensures has(i) <==> exists k: nat :: Stands(gained, lost, i, k)
  {
    if i > 0 {
      LatchHolds(has, gained, lost, i - 1);
      assert has(i - 1 + 1) <==> gained(i - 1) || (has(i - 1) && !lost(i - 1));
      if gained(i - 1) {
        assert Stands(gained, lost, i, i - 1);
      }
      if has(i - 1) && !lost(i - 1) {
        var k: nat :| Stands(gained, lost, i - 1, k);
        assert Stands(gained, lost, i, k);
      }
      if k: nat :| Stands(gained, lost, i, k) {
        assert k < i - 1 ==> Stands(gained, lost, i - 1, k) && !lost(i - 1);
      }
    }
  }
}
