/** Counting the steps of a kind along a run. */
module Counting {
  /** How many of the steps from `i` up to `j` are of a kind. */
  function Count<A>(steps: seq<A>, i: nat, j: nat, kind: A -> bool): (n: nat)
    requires i <= j <= |steps|
    ensures n <= j - i
    decreases j
  {
    if i == j then 0 else Count(steps, i, j - 1, kind) + if kind(steps[j - 1]) then 1 else 0
  }

  lemma {:induction false} CountGrows<A>(steps: seq<A>, i: nat, k: nat, j: nat, kind: A -> bool)
    requires i <= k <= j <= |steps|
    ensures Count(steps, i, k, kind) <= Count(steps, i, j, kind)
    decreases j
  {
    if k < j {
      CountGrows(steps, i, k, j - 1, kind);
    }
  }

  /** The step that brings the count to `n`. */
  lemma {:induction false} CountReaches<A>(steps: seq<A>, i: nat, l: nat, n: nat, kind: A -> bool)
    returns (j: nat)
    requires i <= l <= |steps| && 0 < n <= Count(steps, i, l, kind)
    ensures i <= j < l && kind(steps[j]) && Count(steps, i, j, kind) == n - 1
  {
    if kind(steps[l - 1]) && Count(steps, i, l - 1, kind) == n - 1 {
      j := l - 1;
    } else {
      j := CountReaches(steps, i, l - 1, n, kind);
    }
  }

  lemma CountOrder<A>(steps: seq<A>, i: nat, j: nat, k: nat, kind: A -> bool)
    requires i <= j <= |steps| && i <= k <= |steps| && Count(steps, i, j, kind) < Count(steps, i, k, kind)
    ensures j < k
  {
    if k <= j {
      CountGrows(steps, i, k, j, kind);
    }
  }
}
