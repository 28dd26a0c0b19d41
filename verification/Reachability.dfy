/** Reachability along the steps of a graph, which several searches of the program are about. */
module Reachability {

  /** `b` is at most `n` steps from `a`. */
  ghost predicate Within<K(!new)>(step: (K, K) -> bool, a: K, b: K, n: nat)
    decreases n
  {
    a == b || (n > 0 && exists m :: step(a, m) && Within(step, m, b, n - 1))
  }

  ghost predicate Reachable<K(!new)>(step: (K, K) -> bool, a: K, b: K) {
    exists n: nat :: Within(step, a, b, n)
  }

  lemma ReachesItself<K(!new)>(step: (K, K) -> bool, a: K)
    ensures Reachable(step, a, a)
  {
    assert Within(step, a, a, 0);
  }

  lemma StepThenReach<K(!new)>(step: (K, K) -> bool, a: K, m: K, b: K)
    requires step(a, m) && Reachable(step, m, b)
    ensures Reachable(step, a, b)
  {
    var n: nat :| Within(step, m, b, n);
    assert Within(step, a, b, n + 1);
  }

  lemma {:induction false} OneMoreStep<K(!new)>(step: (K, K) -> bool, a: K, m: K, b: K, n: nat)
    requires Within(step, a, m, n) && step(m, b)
    ensures Within(step, a, b, n + 1)
    decreases n
  {
    if a == m {
      assert Within(step, b, b, n);
    } else {
      var x :| step(a, x) && Within(step, x, m, n - 1);
      OneMoreStep(step, x, m, b, n - 1);
    }
  }

  /** A path that is not empty has a last step. */
  lemma {:induction false} LastStep<K(!new)>(step: (K, K) -> bool, a: K, b: K, n: nat) returns (m: K)
    requires Within(step, a, b, n) && a != b
    ensures n > 0 && Within(step, a, m, n - 1) && step(m, b)
    decreases n
  {
    var x :| step(a, x) && Within(step, x, b, n - 1);
    if x == b {
      m := a;
    } else {
      m := LastStep(step, x, b, n - 1);
      assert Within(step, a, m, n - 1);
    }
  }

  /** A set that no step leaves holds all that is reachable from it. */
  lemma {:induction false} ClosedHolds<K(!new)>(step: (K, K) -> bool, s: set<K>, a: K, b: K)
    requires a in s && Reachable(step, a, b)
    requires forall x, y | x in s && step(x, y) :: y in s
    ensures b in s
  {
    var n: nat :| Within(step, a, b, n);
    ClosedHoldsWithin(step, s, a, b, n);
  }

  lemma {:induction false} ClosedHoldsWithin<K(!new)>(step: (K, K) -> bool, s: set<K>, a: K, b: K, n: nat)
    requires a in s && Within(step, a, b, n)
    requires forall x, y | x in s && step(x, y) :: y in s
    ensures b in s
    decreases n
  {
    if a != b {
      var m :| step(a, m) && Within(step, m, b, n - 1);
      ClosedHoldsWithin(step, s, m, b, n - 1);
    }
  }

  /** Where every step that is ever taken from `a` is also one of `more`, `more` reaches as much. */
  lemma {:induction false} ReachableByMore<K(!new)>(step: (K, K) -> bool, more: (K, K) -> bool, a: K, b: K, n: nat)
    requires Within(step, a, b, n)
    requires forall x, y | Reachable(step, a, x) && step(x, y) :: more(x, y)
    ensures Reachable(more, a, b)
    decreases n
  {
    if a == b {
      ReachesItself(more, a);
    } else {
      var m := LastStep(step, a, b, n);
      ReachableByMore(step, more, a, m, n - 1);
      var k: nat :| Within(more, a, m, k);
      assert Reachable(step, a, m);
      OneMoreStep(more, a, m, b, k);
    }
  }

  /** A path of `step` and then one of `more`, where `more` has all steps of `step`. */
  lemma {:induction false} ReachThenReach<K(!new)>(step: (K, K) -> bool, more: (K, K) -> bool, a: K, m: K, b: K, n: nat)
    requires Within(step, a, m, n) && Reachable(more, m, b)
    requires forall x, y | step(x, y) :: more(x, y)
    ensures Reachable(more, a, b)
    decreases n
  {
    if a != m {
      var x :| step(a, x) && Within(step, x, m, n - 1);
      ReachThenReach(step, more, x, m, b, n - 1);
      StepThenReach(more, a, x, b);
    }
  }
}
