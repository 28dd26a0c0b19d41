/**
 The answers of the driver search for signals from which no cycle can be reached: those of the plain
 recursion, with neither cache nor cut-off, whatever was asked before.
 */
module AcyclicAnswers {
  import opened AnswerCases
  import opened SourceResolver
  import opened Wrappers

  // ----- The plain recursion -----

  /** Keys that depend on each other and on no others, with a rank that every dependency lowers. */
  datatype Ranking = Ranking(keys: set<Key>, rank: Key -> nat)

  ghost predicate Ranked(g: Graph, r: Ranking) {
    && r.keys <= g.Keys
    && forall k, m | k in r.keys && InNode(g[k], Ask(m)) :: m in r.keys && r.rank(m) < r.rank(k)
  }

  ghost predicate AsksBelow(r: Ranking, bound: nat, items: seq<Item>) {
    forall m | Ask(m) in items :: m in r.keys && r.rank(m) < bound
  }

  /** The plain recursion: no cache, no resolving set. */
  ghost function Value(g: Graph, r: Ranking, k: Key): Answer
    requires Ranked(g, r) && k in r.keys
    decreases r.rank(k), 2, 0
  {
    var f := ValueDrivers(g, r, r.rank(k), g[k].drivers);
    if f.kept > 0 then Summary(f)
    else
      assert Fallback(g[k], f.logicOnly).items == FallbackItems(g[k]);
      var e := Fallback(g[k], f.logicOnly);
      var a := ValueItems(g, r, r.rank(k), e.items);
      a.(logic := a.logic || e.logic)
  }

  ghost function ValueDrivers(g: Graph, r: Ranking, bound: nat, drivers: seq<Expr>): Found
    requires Ranked(g, r) && forall e | e in drivers :: AsksBelow(r, bound, e.items)
    decreases bound, 1, |drivers|
  {
    if drivers == [] then Found([], 0, false, false)
    else
      var e := drivers[|drivers| - 1];
      assert e in drivers;
      var f := ValueDrivers(g, r, bound, drivers[..|drivers| - 1]);
      var a := ValueItems(g, r, bound, e.items);
      AddDriver(f, a.(logic := a.logic || e.logic))
  }

  ghost function ValueItems(g: Graph, r: Ranking, bound: nat, items: seq<Item>): Answer
    requires Ranked(g, r) && AsksBelow(r, bound, items)
    decreases bound, 0, |items|
  {
    if items == [] then NO_ANSWER
    else
      var x := items[|items| - 1];
      assert x in items;
      var a := ValueItems(g, r, bound, items[..|items| - 1]);
      match x
      case Leaf(s) => Join(a, Answer([s], false))
      case Ask(m) => Join(a, Value(g, r, m))
  }

  ghost predicate CacheAgrees(g: Graph, r: Ranking, c: Cache)
    requires Ranked(g, r)
  {
    forall k | k in c && k in r.keys :: c[k] == Value(g, r, k)
  }

  /** None of the ranked keys in progress can be met from `k`. */
  ghost predicate Clear(r: Ranking, path: set<Key>, k: Key) {
    forall p | p in path && p in r.keys :: k in r.keys && r.rank(k) < r.rank(p)
  }

  ghost predicate AllClear(r: Ranking, path: set<Key>, items: seq<Item>) {
    forall m | Ask(m) in items :: Clear(r, path, m)
  }

  /** Whatever is queried, ranked keys get the plain recursion's answer. */
  lemma {:induction false} QueryAgrees(g: Graph, r: Ranking, c: Cache, path: set<Key>, k: Key)
    requires Closed(g) && Ranked(g, r) && k in g && c.Keys !! path
    requires CacheAgrees(g, r, c) && Clear(r, path, k)
    ensures
      var (c', a) := Query(g, c, path, k);
      CacheAgrees(g, r, c') && (k in r.keys ==> a == Value(g, r, k))
    decreases g.Keys - path, 1, 0
  {
    if k !in c && k !in path {
      BodyAgrees(g, r, c, path, k);
    }
  }

  lemma {:induction false} BodyAgrees(g: Graph, r: Ranking, c: Cache, path: set<Key>, k: Key)
    requires Closed(g) && Ranked(g, r) && k in g && c.Keys !! path && k !in c && k !in path
    requires CacheAgrees(g, r, c) && Clear(r, path, k)
    ensures
      var (c', a) := Body(g, c, path, k);
      CacheAgrees(g, r, c') && (k in r.keys ==> a == Value(g, r, k))
    decreases g.Keys - path, 0, 0
  {
    NodeWithin(g, k);
    assert k in g.Keys - path && k !in g.Keys - (path + {k});
    var inner, drivers := path + {k}, g[k].drivers;
    var bound := r.rank(k);
    NodeClear(g, r, path, k);
    DriversAgree(g, r, bound, c, inner, drivers);
    var (c1, f) := Drivers(g, c, inner, drivers);
    if f.kept == 0 {
      var e := Fallback(g[k], f.logicOnly);
      ItemsAgree(g, r, bound, c1, inner, e.items);
    }
  }

  lemma NodeClear(g: Graph, r: Ranking, path: set<Key>, k: Key)
    requires Ranked(g, r) && k in g && Clear(r, path, k)
    ensures forall e | e in g[k].drivers :: AllClear(r, path + {k}, e.items)
    ensures forall logicOnly :: AllClear(r, path + {k}, Fallback(g[k], logicOnly).items)
    ensures forall logicOnly :: Fallback(g[k], logicOnly).items == FallbackItems(g[k])
    ensures k in r.keys ==> DriversBelow(r, r.rank(k), g[k].drivers)
    ensures k in r.keys ==> forall logicOnly :: AsksBelow(r, r.rank(k), Fallback(g[k], logicOnly).items)
  {
    forall m | InNode(g[k], Ask(m))
      ensures Clear(r, path + {k}, m)
    {
    }
  }

  lemma {:induction false} DriversAgree(g: Graph, r: Ranking, bound: nat, c: Cache, path: set<Key>,
                                        drivers: seq<Expr>)
    requires Closed(g) && Ranked(g, r) && c.Keys !! path && ExprsWithin(g, drivers)
    requires CacheAgrees(g, r, c) && forall e | e in drivers :: AllClear(r, path, e.items)
    ensures
      var (c', f) := Drivers(g, c, path, drivers);
      CacheAgrees(g, r, c') && (DriversBelow(r, bound, drivers) ==> f == ValueDrivers(g, r, bound, drivers))
    decreases g.Keys - path, 4, |drivers|
  {
    if drivers != [] {
      var front, e := drivers[..|drivers| - 1], drivers[|drivers| - 1];
      assert e in drivers;
      DriversAgree(g, r, bound, c, path, front);
      ItemsAgree(g, r, bound, Drivers(g, c, path, front).0, path, e.items);
    }
  }

  lemma {:induction false} ItemsAgree(g: Graph, r: Ranking, bound: nat, c: Cache, path: set<Key>,
                                      items: seq<Item>)
    requires Closed(g) && Ranked(g, r) && c.Keys !! path && AsksWithin(g, items)
    requires CacheAgrees(g, r, c) && AllClear(r, path, items)
    ensures
      var (c', a) := Items(g, c, path, items);
      CacheAgrees(g, r, c') && (AsksBelow(r, bound, items) ==> a == ValueItems(g, r, bound, items))
    decreases g.Keys - path, 2, |items|
  {
    if items != [] {
      var front, x := items[..|items| - 1], items[|items| - 1];
      assert x in items;
      ItemsAgree(g, r, bound, c, path, front);
      if x.Ask? {
        QueryAgrees(g, r, Items(g, c, path, front).0, path, x.key);
      }
    }
  }

  // ----- What the answer says about logic -----

  ghost predicate DriversBelow(r: Ranking, bound: nat, drivers: seq<Expr>) {
    forall e | e in drivers :: AsksBelow(r, bound, e.items)
  }

  /** The answers of the drivers, each on its own. */
  ghost function Answers(g: Graph, r: Ranking, bound: nat, drivers: seq<Expr>): (answers: seq<Answer>)
    requires Ranked(g, r) && DriversBelow(r, bound, drivers)
    ensures |answers| == |drivers|
  {
    if drivers == [] then []
    else
      var e := drivers[|drivers| - 1];
      assert e in drivers;
      var a := ValueItems(g, r, bound, e.items);
      Answers(g, r, bound, drivers[..|drivers| - 1]) + [a.(logic := a.logic || e.logic)]
  }

  lemma {:induction false} DriversCounted(g: Graph, r: Ranking, bound: nat, drivers: seq<Expr>)
    requires Ranked(g, r) && DriversBelow(r, bound, drivers)
    ensures Counts(ValueDrivers(g, r, bound, drivers), Answers(g, r, bound, drivers))
  {
    if drivers != [] {
      var front, e := drivers[..|drivers| - 1], drivers[|drivers| - 1];
      assert e in drivers;
      DriversCounted(g, r, bound, front);
      var a := ValueItems(g, r, bound, e.items);
      CountsMore(ValueDrivers(g, r, bound, front), Answers(g, r, bound, front), a.(logic := a.logic || e.logic));
    }
  }

  /** Without cycles the plain recursion's answers for expressions are those of the search. */
  lemma {:induction false} EachAgrees(g: Graph, r: Ranking, bound: nat, c: Cache, path: set<Key>, exprs: seq<Expr>)
    requires Closed(g) && Ranked(g, r) && c.Keys !! path && ExprsWithin(g, exprs)
    requires CacheAgrees(g, r, c) && DriversBelow(r, bound, exprs)
    requires forall e | e in exprs :: AllClear(r, path, e.items)
    ensures CacheAgrees(g, r, Each(g, c, path, exprs).0)
    ensures Each(g, c, path, exprs).1 == Answers(g, r, bound, exprs)
  {
    if exprs != [] {
      var front, e := exprs[..|exprs| - 1], exprs[|exprs| - 1];
      assert e in exprs;
      EachAgrees(g, r, bound, c, path, front);
      ItemsAgree(g, r, bound, Each(g, c, path, front).0, path, e.items);
    }
  }

  /**
   A signal with a driver that yields sources has the sources of all drivers, and goes through
   logic exactly when two drivers yield sources or the answer of some driver, with sources or
   without, goes through logic.
   */
  lemma LogicIff(g: Graph, r: Ranking, k: Key)
    requires Ranked(g, r) && k in r.keys
    ensures DriversBelow(r, r.rank(k), g[k].drivers)
    ensures
      var answers := Answers(g, r, r.rank(k), g[k].drivers);
      SomeYields(answers) ==>
        && Value(g, r, k).sources == Sources(answers)
        && (Value(g, r, k).logic <==> TwoYield(answers) || SomeLogic(answers))
  {
    NodeClear(g, r, {}, k);
    DriversCounted(g, r, r.rank(k), g[k].drivers);
  }

  /** What a node can ask when its drivers give nothing is ranked below it. */
  ghost predicate CaseBelow(r: Ranking, bound: nat, node: Node) {
    if node.contExprs != [] then AsksBelow(r, bound, node.contExprs[0].items)
    else if node.contTexts != [] && node.contTexts[0].LiteralText? then true
    else if node.contTexts != [] && node.contTexts[0].NameText? then
      node.contTexts[0].key in r.keys && r.rank(node.contTexts[0].key) < bound
    else if node.external.Some? || node.instances != [] then true
    else node.procedural.Some? ==> DriversBelow(r, bound, node.procedural.value)
  }

  lemma CasesAreBelow(g: Graph, r: Ranking, k: Key)
    requires Ranked(g, r) && k in r.keys
    ensures CaseBelow(r, r.rank(k), g[k])
  {
    NodeClear(g, r, {}, k);
    var node, bound := g[k], r.rank(k);
    assert AsksBelow(r, bound, Fallback(node, false).items);
    if node.contExprs == [] && node.contTexts != [] && node.contTexts[0].NameText? {
      assert Ask(node.contTexts[0].key) in FallbackItems(node);
    } else if node.contExprs == [] && (node.contTexts == [] || node.contTexts[0].OtherText?)
              && node.external.None? && node.instances == [] && node.procedural.Some? {
      forall e | e in node.procedural.value
        ensures AsksBelow(r, bound, e.items)
      {
        AllItemsHolds(node.procedural.value, e);
      }
    }
  }

  /**
   Any other signal has the answer of the first of these that it has: its first continuous assignment,
   a literal or named text, its external port, its instance ports, all its procedural assignments,
   which go through logic. Without any it has no source.
   */
  lemma ValueByCase(g: Graph, r: Ranking, k: Key)
    requires Closed(g) && Ranked(g, r) && k in r.keys
    requires DriversBelow(r, r.rank(k), g[k].drivers)
    requires !SomeYields(Answers(g, r, r.rank(k), g[k].drivers))
    ensures CaseBelow(r, r.rank(k), g[k])
    ensures
      var node, bound, a := g[k], r.rank(k), Value(g, r, k);
      if node.contExprs != [] then
        var b := ValueItems(g, r, bound, node.contExprs[0].items);
        a == Answer(b.sources, b.logic || node.contExprs[0].logic)
      else if node.contTexts != [] && node.contTexts[0].LiteralText? then a == Answer([node.contTexts[0].source], false)
      else if node.contTexts != [] && node.contTexts[0].NameText? then a == Value(g, r, node.contTexts[0].key)
      else if node.external.Some? then a == Answer([node.external.value], false)
      else if node.instances != [] then a == Answer(node.instances, false)
      else if node.procedural.Some? then
        a == Answer(Sources(Answers(g, r, bound, node.procedural.value)), true)
      else a == Answer([], SomeLogic(Answers(g, r, bound, node.drivers)))
  {
    var node, bound, inner := g[k], r.rank(k), {} + {k};
    CasesAreBelow(g, r, k);
    CasesAreWithin(g, k);
    NodeClear(g, r, {}, k);
    QueryAgrees(g, r, map[], {}, k);
    AnswerByCase(g, map[], {}, k);
    EachAgrees(g, r, bound, map[], inner, node.drivers);
    var c1 := Each(g, map[], inner, node.drivers).0;
    if node.contExprs != [] {
      ItemsAgree(g, r, bound, c1, inner, node.contExprs[0].items);
    } else if node.contTexts != [] && node.contTexts[0].LiteralText? {
    } else if node.contTexts != [] && node.contTexts[0].NameText? {
      QueryAgrees(g, r, c1, inner, node.contTexts[0].key);
    } else if node.external.None? && node.instances == [] && node.procedural.Some? {
      EachAgrees(g, r, bound, c1, inner, node.procedural.value);
    }
  }

  // ----- Any sequence of queries -----

  /** A key from which no cycle can be reached gets the plain recursion's answer, whatever else is asked. */
  lemma {:induction false} AcyclicOrderIrrelevant(g: Graph, r: Ranking, queries: seq<Key>)
    requires Closed(g) && Ranked(g, r) && forall k | k in queries :: k in g
    ensures
      var (c, answers) := Session(g, queries);
      && CacheAgrees(g, r, c)
      && (forall i | 0 <= i < |queries| && queries[i] in r.keys :: answers[i] == Value(g, r, queries[i]))
  {
    if queries != [] {
      var front, k := queries[..|queries| - 1], queries[|queries| - 1];
      AcyclicOrderIrrelevant(g, r, front);
      QueryAgrees(g, r, Session(g, front).0, {}, k);
      forall i | 0 <= i < |queries| && queries[i] in r.keys
        ensures Session(g, queries).1[i] == Value(g, r, queries[i])
      {
        if i < |front| {
          assert front[i] == queries[i];
        }
      }
    }
  }
}
