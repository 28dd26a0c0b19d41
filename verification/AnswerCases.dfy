/**
 The answer for one signal in terms of the answers for its expressions, on any graph and from any
 cache: what its drivers give, and without them the first of the other cases that it has.
 */
module AnswerCases {
  import opened SourceResolver
  import opened Sequences
  import opened Wrappers

  // ----- Lists of answers -----

  predicate SomeYields(answers: seq<Answer>) {
    exists i | 0 <= i < |answers| :: answers[i].sources != []
  }

  predicate TwoYield(answers: seq<Answer>) {
    exists i, j | 0 <= i < j < |answers| :: answers[i].sources != [] && answers[j].sources != []
  }

  predicate SomeLogic(answers: seq<Answer>) {
    exists i | 0 <= i < |answers| :: answers[i].logic
  }

  function Sources(answers: seq<Answer>): seq<Source> {
    if answers == [] then [] else Sources(answers[..|answers| - 1]) + answers[|answers| - 1].sources
  }

  lemma OneMoreAnswer(answers: seq<Answer>, a: Answer)
    ensures SomeYields(answers + [a]) <==> SomeYields(answers) || a.sources != []
    ensures TwoYield(answers + [a]) <==> TwoYield(answers) || (SomeYields(answers) && a.sources != [])
    ensures SomeLogic(answers + [a]) <==> SomeLogic(answers) || a.logic
  {
    var more := answers + [a];
    assert more[|answers|] == a && forall i | 0 <= i < |answers| :: more[i] == answers[i];
  }

  /** What the counters and flags say about the answers collected so far. */
  ghost predicate Counts(f: Found, answers: seq<Answer>) {
    && (f.kept > 0 <==> SomeYields(answers))
    && (f.kept > 1 <==> TwoYield(answers))
    && (f.logic || f.logicOnly <==> SomeLogic(answers))
    && (f.kept == 0 ==> !f.logic)
    && f.sources == Sources(answers)
  }

  lemma CountsMore(f: Found, answers: seq<Answer>, a: Answer)
    requires Counts(f, answers)
    ensures Counts(AddDriver(f, a), answers + [a])
  {
    OneMoreAnswer(answers, a);
    assert (answers + [a])[..|answers|] == answers;
    assert Sources(answers) + [] == Sources(answers);
  }

  /** The answers for expressions that are evaluated one after the other. */
  function Each(g: Graph, c: Cache, path: set<Key>, exprs: seq<Expr>): (r: (Cache, seq<Answer>))
    requires Closed(g) && ExprsWithin(g, exprs) && c.Keys !! path
    ensures c.Items <= r.0.Items && r.0.Keys !! path && |r.1| == |exprs|
  {
    if exprs == [] then (c, [])
    else
      var (c1, answers) := Each(g, c, path, exprs[..|exprs| - 1]);
      var (c2, a) := ItemsOf(g, c1, path, exprs[|exprs| - 1]);
      (c2, answers + [a])
  }

  lemma {:induction false} DriversEach(g: Graph, c: Cache, path: set<Key>, drivers: seq<Expr>)
    requires Closed(g) && ExprsWithin(g, drivers) && c.Keys !! path
    ensures Drivers(g, c, path, drivers).0 == Each(g, c, path, drivers).0
    ensures Counts(Drivers(g, c, path, drivers).1, Each(g, c, path, drivers).1)
  {
    if drivers != [] {
      var front, e := drivers[..|drivers| - 1], drivers[|drivers| - 1];
      DriversEach(g, c, path, front);
      var (c1, f) := Drivers(g, c, path, front);
      CountsMore(f, Each(g, c, path, front).1, ItemsOf(g, c1, path, e).1);
    }
  }

  /**
   Expressions are evaluated item by item: leaves give themselves, keys their answers, and an
   expression can go through logic itself.
   */
  lemma ItemsByOne(g: Graph, c: Cache, path: set<Key>, items: seq<Item>, x: Item, logic: bool)
    requires Closed(g) && c.Keys !! path && AsksWithin(g, items + [x])
    ensures AsksWithin(g, items) && (x.Ask? ==> x.key in g)
    ensures
      var (c1, a) := Items(g, c, path, items);
      var (c2, b) := match x case Leaf(s) => (c1, Answer([s], false)) case Ask(m) => Query(g, c1, path, m);
      && Items(g, c, path, items + [x]) == (c2, Answer(a.sources + b.sources, a.logic || b.logic))
      && ItemsOf(g, c, path, Expr(items, logic)) == (c1, Answer(a.sources, a.logic || logic))
    ensures Items(g, c, path, []) == (c, Answer([], false))
  {
    assert (items + [x])[..|items|] == items && x in items + [x];
    assert forall y | y in items :: y in items + [x];
  }

  lemma {:induction false} ItemsAppend(g: Graph, c: Cache, path: set<Key>, front: seq<Item>, more: seq<Item>)
    requires Closed(g) && c.Keys !! path && AsksWithin(g, front) && AsksWithin(g, more)
    ensures AsksWithin(g, front + more)
    ensures
      var (c1, a) := Items(g, c, path, front);
      var (c2, b) := Items(g, c1, path, more);
      && Items(g, c, path, front + more).0 == c2
      && Items(g, c, path, front + more).1.sources == a.sources + b.sources
  {
    if more == [] {
      assert front + more == front;
      var a := Items(g, c, path, front).1;
      assert a.sources + [] == a.sources;
    } else {
      var start, x := more[..|more| - 1], more[|more| - 1];
      assert start + [x] == more && front + start + [x] == front + more;
      assert forall y | y in start :: y in more;
      ItemsAppend(g, c, path, front, start);
      AppendKeepsAsks(g, front, more);
      var (c1, a) := Items(g, c, path, front);
      var (c2, b) := Items(g, c1, path, start);
      var one := match x case Leaf(s) => [s] case Ask(m) => Query(g, c2, path, m).1.sources;
      ItemsByOne(g, c1, path, start, x, false);
      ItemsByOne(g, c, path, front + start, x, false);
      assert Items(g, c, path, front + more).1.sources == (a.sources + b.sources) + one;
      PlusAssociates(a.sources, b.sources, one);
    }
  }

  lemma AppendKeepsAsks(g: Graph, front: seq<Item>, more: seq<Item>)
    requires AsksWithin(g, front) && AsksWithin(g, more)
    ensures AsksWithin(g, front + more)
  {
  }

  lemma {:induction false} AllItemsHolds(exprs: seq<Expr>, e: Expr)
    requires e in exprs
    ensures forall x | x in e.items :: x in AllItems(exprs)
  {
    if e != exprs[|exprs| - 1] {
      AllItemsHolds(exprs[..|exprs| - 1], e);
    }
  }

  lemma {:induction false} AllItemsEach(g: Graph, c: Cache, path: set<Key>, exprs: seq<Expr>)
    requires Closed(g) && ExprsWithin(g, exprs) && c.Keys !! path
    ensures AsksWithin(g, AllItems(exprs))
    ensures Items(g, c, path, AllItems(exprs)).0 == Each(g, c, path, exprs).0
    ensures Items(g, c, path, AllItems(exprs)).1.sources == Sources(Each(g, c, path, exprs).1)
  {
    if exprs != [] {
      var front, e := exprs[..|exprs| - 1], exprs[|exprs| - 1];
      AllItemsEach(g, c, path, front);
      ItemsAppend(g, c, path, AllItems(front), e.items);
      var answers := Each(g, c, path, exprs).1;
      assert answers[..|answers| - 1] == Each(g, c, path, front).1;
    }
  }

  lemma {:induction false} LeavesAnswer(g: Graph, c: Cache, path: set<Key>, sources: seq<Source>)
    requires Closed(g) && c.Keys !! path
    ensures Items(g, c, path, Leaves(sources)) == (c, Answer(sources, false))
  {
    if sources != [] {
      var front := sources[..|sources| - 1];
      LeavesAnswer(g, c, path, front);
      assert Leaves(sources)[..|sources| - 1] == Leaves(front);
      assert front + [sources[|sources| - 1]] == sources;
    }
  }

  lemma AskAnswer(g: Graph, c: Cache, path: set<Key>, m: Key)
    requires Closed(g) && m in g && c.Keys !! path
    ensures Items(g, c, path, [Ask(m)]) == Query(g, c, path, m)
  {
    assert [Ask(m)][..0] == [] && Items(g, c, path, []) == (c, NO_ANSWER);
    var a := Query(g, c, path, m).1;
    assert [] + a.sources == a.sources;
  }

  // ----- Signals whose drivers give nothing -----

  /** What a node can ask when its drivers give nothing is in the graph. */
  ghost predicate CaseWithin(g: Graph, node: Node) {
    if node.contExprs != [] then AsksWithin(g, node.contExprs[0].items)
    else if node.contTexts != [] && node.contTexts[0].LiteralText? then true
    else if node.contTexts != [] && node.contTexts[0].NameText? then node.contTexts[0].key in g
    else if node.external.Some? || node.instances != [] then true
    else node.procedural.Some? ==> ExprsWithin(g, node.procedural.value)
  }

  lemma CasesAreWithin(g: Graph, k: Key)
    requires Closed(g) && k in g
    ensures ExprsWithin(g, g[k].drivers) && CaseWithin(g, g[k])
  {
    NodeWithin(g, k);
    var node := g[k];
    if node.contExprs == [] && node.contTexts != [] && node.contTexts[0].NameText? {
      assert FallbackItems(node) == [Ask(node.contTexts[0].key)];
      assert Ask(node.contTexts[0].key) in FallbackItems(node);
    } else if node.contExprs == [] && (node.contTexts == [] || node.contTexts[0].OtherText?)
              && node.external.None? && node.instances == [] && node.procedural.Some? {
      forall e | e in node.procedural.value
        ensures AsksWithin(g, e.items)
      {
        AllItemsHolds(node.procedural.value, e);
      }
    }
  }

  /** If a driver yields sources, the answer has those of all drivers. */
  lemma AnswerOfDrivers(g: Graph, c: Cache, path: set<Key>, k: Key)
    requires Closed(g) && k in g && c.Keys !! path && k !in c && k !in path
    ensures ExprsWithin(g, g[k].drivers)
    ensures
      var (c1, answers) := Each(g, c, path + {k}, g[k].drivers);
      var a := Query(g, c, path, k).1;
      if SomeYields(answers) then
        a.sources == Sources(answers) && (a.logic <==> TwoYield(answers) || SomeLogic(answers))
      else a == ItemsOf(g, c1, path + {k}, Fallback(g[k], SomeLogic(answers))).1
  {
    CasesAreWithin(g, k);
    DriversEach(g, c, path + {k}, g[k].drivers);
    var (c1, f) := Drivers(g, c, path + {k}, g[k].drivers);
    if f.kept > 0 {
      assert Query(g, c, path, k).1 == Summary(f);
    } else {
      assert Query(g, c, path, k).1 == ItemsOf(g, c1, path + {k}, Fallback(g[k], f.logicOnly)).1;
    }
  }

  /** What a node without yielding drivers gives, in its order of preference. */
  lemma FallbackAnswer(g: Graph, c: Cache, path: set<Key>, k: Key, logicOnly: bool)
    requires Closed(g) && k in g && c.Keys !! path
    ensures CaseWithin(g, g[k]) && AsksWithin(g, Fallback(g[k], logicOnly).items)
    ensures
      var node, a := g[k], ItemsOf(g, c, path, Fallback(g[k], logicOnly)).1;
      if node.contExprs != [] then
        var b := Items(g, c, path, node.contExprs[0].items).1;
        a == Answer(b.sources, b.logic || node.contExprs[0].logic)
      else if node.contTexts != [] && node.contTexts[0].LiteralText? then a == Answer([node.contTexts[0].source], false)
      else if node.contTexts != [] && node.contTexts[0].NameText? then
        a == Query(g, c, path, node.contTexts[0].key).1
      else if node.external.Some? then a == Answer([node.external.value], false)
      else if node.instances != [] then a == Answer(node.instances, false)
      else if node.procedural.Some? then
        a == Answer(Sources(Each(g, c, path, node.procedural.value).1), true)
      else a == Answer([], logicOnly)
  {
    CasesAreWithin(g, k);
    NodeWithin(g, k);
    var node := g[k];
    assert Items(g, c, path, []) == (c, NO_ANSWER);
    if node.contExprs != [] {
    } else if node.contTexts != [] && node.contTexts[0].LiteralText? {
      assert Leaves([node.contTexts[0].source]) == [Leaf(node.contTexts[0].source)];
      LeavesAnswer(g, c, path, [node.contTexts[0].source]);
    } else if node.contTexts != [] && node.contTexts[0].NameText? {
      AskAnswer(g, c, path, node.contTexts[0].key);
    } else if node.external.Some? {
      assert Leaves([node.external.value]) == [Leaf(node.external.value)];
      LeavesAnswer(g, c, path, [node.external.value]);
    } else if node.instances != [] {
      LeavesAnswer(g, c, path, node.instances);
    } else if node.procedural.Some? {
      AllItemsEach(g, c, path, node.procedural.value);
    }
  }

  /**
   The answer for a key that is neither cached nor in progress. If a driver yields sources, it has the
   sources of all drivers, and goes through logic exactly when two drivers yield sources or some
   driver goes through logic. Otherwise it is that of the first continuous assignment; without one,
   the literal or the named signal of a textual one; then the external port; then the instance ports,
   none of which go through logic themselves; then the sources of all procedural assignments, which
   do. A signal without any of these has no source, and goes through logic iff some driver does.
   */
  lemma AnswerByCase(g: Graph, c: Cache, path: set<Key>, k: Key)
    requires Closed(g) && k in g && c.Keys !! path && k !in c && k !in path
    ensures ExprsWithin(g, g[k].drivers) && CaseWithin(g, g[k])
    ensures
      var node, inner, a := g[k], path + {k}, Query(g, c, path, k).1;
      var (c1, answers) := Each(g, c, inner, node.drivers);
      if SomeYields(answers) then
        a.sources == Sources(answers) && (a.logic <==> TwoYield(answers) || SomeLogic(answers))
      else if node.contExprs != [] then
        var b := Items(g, c1, inner, node.contExprs[0].items).1;
        a == Answer(b.sources, b.logic || node.contExprs[0].logic)
      else if node.contTexts != [] && node.contTexts[0].LiteralText? then a == Answer([node.contTexts[0].source], false)
      else if node.contTexts != [] && node.contTexts[0].NameText? then
        a == Query(g, c1, inner, node.contTexts[0].key).1
      else if node.external.Some? then a == Answer([node.external.value], false)
      else if node.instances != [] then a == Answer(node.instances, false)
      else if node.procedural.Some? then
        a == Answer(Sources(Each(g, c1, inner, node.procedural.value).1), true)
      else a == Answer([], SomeLogic(answers))
  {
    AnswerOfDrivers(g, c, path, k);
    CasesAreWithin(g, k);
    var (c1, answers) := Each(g, c, path + {k}, g[k].drivers);
    FallbackAnswer(g, c1, path + {k}, k, SomeLogic(answers));
  }

  /** A key that is cached has the cached answer, and one in progress has none; neither changes the cache. */
  lemma KnownAnswer(g: Graph, c: Cache, path: set<Key>, k: Key)
    requires Closed(g) && k in g && c.Keys !! path && (k in c || k in path)
    ensures Query(g, c, path, k) == (c, if k in c then c[k] else Answer([], false))
  {
  }

  /** Whatever is answered is what is cached. */
  lemma AnswerIsCached(g: Graph, c: Cache, path: set<Key>, k: Key)
    requires Closed(g) && k in g && c.Keys !! path && k !in path
    ensures
      var (c', a) := Query(g, c, path, k);
      k in c' && c'[k] == a
  {
  }
}
