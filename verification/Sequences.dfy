/**
 First occurrences, which several parts of the program keep (`_dedupe_partial_selects`,
 `_dedup_sources`), and associativity of concatenation.
 */
module Sequences {

  /** First occurrences only, in order. */
  function Dedup<S(==)>(xs: seq<S>): seq<S> {
    if xs == [] then []
    else
      var front, x := Dedup(xs[..|xs| - 1]), xs[|xs| - 1];
      if x in front then front else front + [x]
  }

  lemma {:induction false} DedupFacts<S>(xs: seq<S>)
    ensures forall x :: x in Dedup(xs) <==> x in xs
    ensures forall i, j | 0 <= i < j < |Dedup(xs)| :: Dedup(xs)[i] != Dedup(xs)[j]
  {
    if xs != [] {
      DedupFacts(xs[..|xs| - 1]);
      assert xs == xs[..|xs| - 1] + [xs[|xs| - 1]];
    }
  }

  lemma {:induction false} DedupOfUnique<S>(xs: seq<S>)
    requires forall i, j | 0 <= i < j < |xs| :: xs[i] != xs[j]
    ensures Dedup(xs) == xs
  {
    if xs != [] {
      var front := xs[..|xs| - 1];
      DedupOfUnique(front);
      assert front + [xs[|xs| - 1]] == xs;
    }
  }

  /** Relative order is that of first occurrences: deduplicating more input only appends. */
  lemma {:induction false} DedupAppends<S>(xs: seq<S>, ys: seq<S>)
    ensures Dedup(xs) <= Dedup(xs + ys)
  {
    if ys == [] {
      assert xs + ys == xs;
    } else {
      assert (xs + ys)[..|xs + ys| - 1] == xs + ys[..|ys| - 1];
      DedupAppends(xs, ys[..|ys| - 1]);
    }
  }

  method Deduplicate<S(==)>(sources: seq<S>) returns (unique: seq<S>)
    ensures unique == Dedup(sources)
  {
    unique := [];
    var seen: set<S> := {};
    for i := 0 to |sources|
      invariant unique == Dedup(sources[..i])
      invariant forall x :: x in seen <==> x in unique
    {
      assert sources[..i + 1][..i] == sources[..i];
      if sources[i] !in seen {
        seen := seen + {sources[i]};
        unique := unique + [sources[i]];
      }
    }
    assert sources[..|sources|] == sources;
  }

  lemma PlusAssociates<T>(a: seq<T>, b: seq<T>, c: seq<T>)
    ensures a + b + c == a + (b + c)
  {
  }
}
