/** Runs of a transition system. */
module Runs {
  /** What every step keeps stays along a run. */
  lemma {:induction false} KeptAlong<S(!new)>(run: seq<S>, step: (S, S) -> bool, inv: S -> bool, k: nat, m: nat)
    requires k <= m < |run| && inv(run[k])
    requires forall i :: 0 <= i < |run| - 1 ==> step(run[i], run[i + 1])
    requires forall s, t :: inv(s) && step(s, t) ==> inv(t)
    ensures inv(run[m])
    decreases m
  {
    if k < m {
      KeptAlong(run, step, inv, k, m - 1);
      assert step(run[m - 1], run[m - 1 + 1]);
    }
  }
}
