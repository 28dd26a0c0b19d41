/**
 Merging of adjacent concatenation operands that go through the blackbox
 (`_merge_blackbox_concat_operands`): each maximal run of them becomes one operand.
 */
module LogicOperands {
  import opened Sequences

  datatype Operand<S> = Operand(sources: seq<S>, logic: bool)

  function AllSources<S>(items: seq<Operand<S>>): seq<S> {
    if items == [] then [] else AllSources(items[..|items| - 1]) + items[|items| - 1].sources
  }

  /** Length of the run of logic operands at the front. */
  function LogicRun<S>(items: seq<Operand<S>>): (n: nat)
    ensures n <= |items|
    ensures forall i | 0 <= i < n :: items[i].logic
    ensures n < |items| ==> !items[n].logic
  {
    if items == [] || !items[0].logic then 0 else 1 + LogicRun(items[1..])
  }

  /** Each maximal run of logic operands, merged; everything else as it was. */
  function Merge<S(==)>(items: seq<Operand<S>>): seq<Operand<S>> {
    if items == [] then []
    else
      var n := LogicRun(items);
      if n == 0 then [items[0]] + Merge(items[1..])
      else [Operand(Dedup(AllSources(items[..n])), true)] + Merge(items[n..])
  }

  function NonLogic<S>(items: seq<Operand<S>>): seq<Operand<S>> {
    if items == [] then []
    else (if items[0].logic then [] else [items[0]]) + NonLogic(items[1..])
  }

  ghost predicate NoAdjacentLogic<S>(items: seq<Operand<S>>) {
    forall i | 0 < i < |items| :: !(items[i - 1].logic && items[i].logic)
  }

  lemma {:induction false} SkipRun<S>(items: seq<Operand<S>>, n: nat)
    requires n <= |items| && forall i | 0 <= i < n :: items[i].logic
    ensures NonLogic(items) == NonLogic(items[n..])
  {
    if n > 0 {
      SkipRun(items[1..], n - 1);
      assert items[1..][n - 1..] == items[n..];
    } else {
      assert items[n..] == items;
    }
  }

  // ----- Main results -----

  lemma {:induction false} MergeKeepsNonLogic<S>(items: seq<Operand<S>>)
    ensures NonLogic(Merge(items)) == NonLogic(items)
    decreases |items|
  {
    if items != [] {
      var n := LogicRun(items);
      if n == 0 {
        MergeKeepsNonLogic(items[1..]);
        assert Merge(items)[1..] == Merge(items[1..]);
      } else {
        SkipRun(items, n);
        MergeKeepsNonLogic(items[n..]);
        assert Merge(items)[1..] == Merge(items[n..]);
      }
    }
  }

  lemma {:induction false} MergeSeparates<S>(items: seq<Operand<S>>)
    ensures NoAdjacentLogic(Merge(items))
    ensures Merge(items) == [] <==> items == []
    ensures items != [] ==> Merge(items)[0].logic == items[0].logic
    decreases |items|
  {
    if items != [] {
      var n := LogicRun(items);
      var m := if n == 0 then 1 else n;
      MergeSeparates(items[m..]);
      var merged := Merge(items);
      assert merged[1..] == Merge(items[m..]);
      forall i | 0 < i < |merged|
        ensures !(merged[i - 1].logic && merged[i].logic)
      {
        assert merged[i] == merged[1..][i - 1];
        if i > 1 {
          assert merged[i - 1] == merged[1..][i - 2];
        }
      }
    }
  }

  ghost predicate Merged<S>(items: seq<Operand<S>>) {
    && NoAdjacentLogic(items)
    && (forall x | x in items && x.logic :: Dedup(x.sources) == x.sources)
  }

  lemma MergedTail<S>(items: seq<Operand<S>>)
    requires Merged(items) && items != []
    ensures Merged(items[1..]) && LogicRun(items) <= 1
  {
    var rest := items[1..];
    assert forall i | 0 < i < |rest| :: rest[i - 1] == items[i] && rest[i] == items[i + 1];
    assert rest != [] ==> rest[0] == items[1];
    assert items[0].logic ==> LogicRun(rest) == 0;
  }

  lemma AllSourcesOne<S>(x: Operand<S>)
    ensures AllSources([x]) == x.sources
  {
    assert AllSources([x][..0]) == [];
    assert AllSources([x]) == AllSources([x][..0]) + x.sources;
  }

  lemma MergeHead<S>(items: seq<Operand<S>>)
    requires items != [] && LogicRun(items) <= 1 && (items[0].logic ==> Dedup(items[0].sources) == items[0].sources)
    ensures Merge(items) == [items[0]] + Merge(items[1..])
  {
    if LogicRun(items) == 1 {
      AllSourcesOne(items[0]);
      assert items[..1] == [items[0]];
      assert Operand(Dedup(AllSources(items[..1])), true) == items[0];
    }
  }

  /** A list in which no two logic operands meet and none repeats a source is left alone. */
  lemma {:induction false} MergedIsFixpoint<S>(items: seq<Operand<S>>)
    requires Merged(items)
    ensures Merge(items) == items
    decreases |items|
  {
    if items != [] {
      assert items[0] in items;
      MergedTail(items);
      MergeHead(items);
      MergedIsFixpoint(items[1..]);
    }
  }

  lemma {:induction false} MergeDeduplicates<S>(items: seq<Operand<S>>, x: Operand<S>)
    requires x in Merge(items) && x.logic
    ensures Dedup(x.sources) == x.sources
    decreases |items|
  {
    var n := LogicRun(items);
    if n == 0 {
      assert x in Merge(items[1..]);
      MergeDeduplicates(items[1..], x);
    } else if x == Merge(items)[0] {
      DedupFacts(AllSources(items[..n]));
      DedupOfUnique(x.sources);
    } else {
      assert x in Merge(items[n..]);
      MergeDeduplicates(items[n..], x);
    }
  }

  lemma MergeIdempotent<S>(items: seq<Operand<S>>)
    ensures Merge(Merge(items)) == Merge(items)
  {
    MergeSeparates(items);
    forall x | x in Merge(items) && x.logic
      ensures Dedup(x.sources) == x.sources
    {
      MergeDeduplicates(items, x);
    }
    MergedIsFixpoint(Merge(items));
  }

  ghost predicate AllLogic<S>(items: seq<Operand<S>>) {
    forall x | x in items :: x.logic
  }

  /** A run is maximal between `before` and `after` if no logic operand is next to it. */
  ghost predicate MaximalRun<S>(before: seq<Operand<S>>, run: seq<Operand<S>>, after: seq<Operand<S>>) {
    && run != [] && AllLogic(run)
    && (before != [] ==> !before[|before| - 1].logic)
    && (after != [] ==> !after[0].logic)
  }

  lemma {:induction false} LogicRunOf<S>(run: seq<Operand<S>>, after: seq<Operand<S>>)
    requires AllLogic(run) && (after != [] ==> !after[0].logic)
    ensures LogicRun(run + after) == |run|
  {
    if run != [] {
      assert (run + after)[1..] == run[1..] + after && run[0] in run;
      LogicRunOf(run[1..], after);
    } else {
      assert run + after == after;
    }
  }

  /** Merging up to an operand that is no logic does not depend on what follows. */
  lemma {:induction false} MergeSplits<S>(before: seq<Operand<S>>, rest: seq<Operand<S>>)
    requires before != [] ==> !before[|before| - 1].logic
    ensures Merge(before + rest) == Merge(before) + Merge(rest)
    decreases |before|
  {
    if before == [] {
      assert before + rest == rest;
    } else {
      var m := HeadLength(before);
      SameLogicRun(before, rest);
      assert (before + rest)[m..] == before[m..] + rest && (before + rest)[..m] == before[..m];
      assert MergedHead(before + rest) == MergedHead(before);
      MergeSplits(before[m..], rest);
      MergeUnfolds(before);
      MergeUnfolds(before + rest);
      PlusAssociates([MergedHead(before)], Merge(before[m..]), Merge(rest));
    }
  }

  /** How many operands the first merged one stands for. */
  function HeadLength<S>(items: seq<Operand<S>>): (m: nat)
    requires items != []
    ensures 1 <= m <= |items|
  {
    if items[0].logic then LogicRun(items) else 1
  }

  function MergedHead<S(==)>(items: seq<Operand<S>>): Operand<S>
    requires items != []
  {
    if items[0].logic then Operand(Dedup(AllSources(items[..HeadLength(items)])), true) else items[0]
  }

  lemma MergeUnfolds<S>(items: seq<Operand<S>>)
    requires items != []
    ensures Merge(items) == [MergedHead(items)] + Merge(items[HeadLength(items)..])
  {
  }

  lemma {:induction false} SameLogicRun<S>(before: seq<Operand<S>>, rest: seq<Operand<S>>)
    requires before != [] && !before[|before| - 1].logic
    ensures LogicRun(before + rest) == LogicRun(before)
  {
    if before[0].logic {
      assert (before + rest)[1..] == before[1..] + rest;
      SameLogicRun(before[1..], rest);
    }
  }

  lemma RunMergesFirst<S>(run: seq<Operand<S>>, after: seq<Operand<S>>)
    requires MaximalRun([], run, after)
    ensures Merge(run + after) == [Operand(Dedup(AllSources(run)), true)] + Merge(after)
  {
    LogicRunOf(run, after);
    assert run[0] in run && (run + after)[0] == run[0];
    assert (run + after)[..|run|] == run && (run + after)[|run|..] == after;
    MergeUnfolds(run + after);
  }

  /** A maximal run becomes one operand, in place, with the sources of the run in first-occurrence order. */
  lemma RunMergesInPlace<S>(before: seq<Operand<S>>, run: seq<Operand<S>>, after: seq<Operand<S>>)
    requires MaximalRun(before, run, after)
    ensures Merge(before + run + after) ==
            Merge(before) + [Operand(Dedup(AllSources(run)), true)] + Merge(after)
  {
    RunMergesFirst(run, after);
    PlusAssociates(before, run, after);
    MergeSplits(before, run + after);
    PlusAssociates(Merge(before), [Operand(Dedup(AllSources(run)), true)], Merge(after));
  }

  // ----- The loop of the source -----

  /** The rest of the work, with a run that is or is not open. */
  function Resume<S(==)>(active: bool, run: seq<S>, items: seq<Operand<S>>): seq<Operand<S>>
    decreases |items|
  {
    if items != [] && items[0].logic then
      Resume(true, (if active then run else []) + items[0].sources, items[1..])
    else
      (if active then [Operand(Dedup(run), true)] else [])
      + if items == [] then [] else [items[0]] + Resume(false, [], items[1..])
  }

  lemma {:induction false} AllSourcesFront<S>(items: seq<Operand<S>>)
    requires items != []
    ensures AllSources(items) == items[0].sources + AllSources(items[1..])
  {
    if |items| == 1 {
      assert items[..0] == [] && items[1..] == [];
    } else {
      var front, rest := items[..|items| - 1], items[1..];
      AllSourcesFront(front);
      assert rest[..|rest| - 1] == front[1..] && rest[|rest| - 1] == items[|items| - 1];
      PlusAssociates(items[0].sources, AllSources(front[1..]), items[|items| - 1].sources);
    }
  }

  lemma {:induction false} ResumeMerges<S>(run: seq<S>, items: seq<Operand<S>>)
    ensures Resume(false, [], items) == Merge(items)
    ensures
      var n := LogicRun(items);
      Resume(true, run, items) == [Operand(Dedup(run + AllSources(items[..n])), true)] + Merge(items[n..])
    decreases |items|
  {
    var n := LogicRun(items);
    if n == 0 {
      assert items[..0] == [] && items[0..] == items && run + [] == run;
      if items != [] {
        ResumeMerges([], items[1..]);
      }
    } else {
      ResumeMerges(run + items[0].sources, items[1..]);
      ResumeMerges([] + items[0].sources, items[1..]);
      RunSources(run, items, n);
      RunSources([], items, n);
      assert [] + AllSources(items[..n]) == AllSources(items[..n]);
    }
  }

  lemma RunSources<S>(run: seq<S>, items: seq<Operand<S>>, n: nat)
    requires 0 < n <= |items|
    ensures run + items[0].sources + AllSources(items[1..][..n - 1]) == run + AllSources(items[..n])
    ensures items[1..][n - 1..] == items[n..]
  {
    AllSourcesFront(items[..n]);
    assert items[1..][..n - 1] == items[..n][1..];
    PlusAssociates(run, items[0].sources, AllSources(items[..n][1..]));
  }

  lemma ResumeLogic<S>(done: seq<Operand<S>>, active: bool, run: seq<S>, items: seq<Operand<S>>)
    requires items != [] && items[0].logic && (active || run == [])
    ensures done + Resume(active, run, items) == done + Resume(true, run + items[0].sources, items[1..])
  {
  }

  lemma ResumeOther<S>(done: seq<Operand<S>>, active: bool, run: seq<S>, items: seq<Operand<S>>)
    requires items != [] && !items[0].logic
    ensures
      var flushed := if active then done + [Operand(Dedup(run), true)] else done;
      done + Resume(active, run, items) == flushed + [items[0]] + Resume(false, [], items[1..])
  {
    var flush := if active then [Operand(Dedup(run), true)] else [];
    var rest := Resume(false, [], items[1..]);
    assert Resume(active, run, items) == flush + ([items[0]] + rest);
    assert done + (flush + ([items[0]] + rest)) == done + flush + [items[0]] + rest;
    assert !active ==> done + flush == done;
  }

  lemma ResumeEnd<S>(done: seq<Operand<S>>, active: bool, run: seq<S>)
    ensures done + Resume(active, run, []) == if active then done + [Operand(Dedup(run), true)] else done
  {
  }

  method MergeBlackboxConcatOperands<S(==)>(items: seq<Operand<S>>) returns (merged: seq<Operand<S>>)
    ensures merged == Merge(items)
  {
    merged := [];
    var runSources: seq<S> := [];
    var runActive := false;
    ResumeMerges([], items);
    assert items[0..] == items;
    for i := 0 to |items|
      invariant !runActive ==> runSources == []
      invariant merged + Resume(runActive, runSources, items[i..]) == Merge(items)
    {
      assert items[i..][1..] == items[i + 1..] && items[i..][0] == items[i];
      if items[i].logic {
        ResumeLogic(merged, runActive, runSources, items[i..]);
        if !runActive {
          runActive, runSources := true, [];
        }
        runSources := runSources + items[i].sources;
      } else {
        ResumeOther(merged, runActive, runSources, items[i..]);
        if runActive {
          var unique := Deduplicate(runSources);
          merged := merged + [Operand(unique, true)];
          runSources, runActive := [], false;
        }
        merged := merged + [items[i]];
      }
    }
    assert items[|items|..] == [];
    ResumeEnd(merged, runActive, runSources);
    if runActive {
      var unique := Deduplicate(runSources);
      merged := merged + [Operand(unique, true)];
    }
  }
}
