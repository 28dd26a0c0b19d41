/**
 Which sources the driver search returns, on any graph and from any cache: what is met before a
 cached key, or held by the first cached key that is met. Hence when an answer depends on what was
 asked before.
 */
module AnswerSources {
  import opened AnswerCases
  import opened Reachability
  import opened SourceResolver
  import opened Wrappers

  // ----- What a node consults -----

  predicate SomeDriverLeaf(node: Node) {
    exists e | e in node.drivers :: exists x | x in e.items :: x.Leaf?
  }

  predicate NoDriverItems(node: Node) {
    forall e | e in node.drivers :: e.items == []
  }

  /** What evaluating a node is sure to consult: the fallback only if there is nothing to drive it. */
  ghost predicate Sure(node: Node, x: Item) {
    InDrivers(node, x) || (NoDriverItems(node) && x in FallbackItems(node))
  }

  /** What it may consult: never the fallback if a driver has a source of its own. */
  ghost predicate Possible(node: Node, x: Item) {
    InDrivers(node, x) || (!SomeDriverLeaf(node) && x in FallbackItems(node))
  }

  ghost predicate Consults(node: Node, sure: bool, x: Item) {
    if sure then Sure(node, x) else Possible(node, x)
  }

  /** Steps of the search from a cache: it goes no further than a cached key. */
  ghost function Steps(g: Graph, sure: bool, c: Cache): (Key, Key) -> bool {
    (a: Key, m: Key) => a in g && a !in c && Consults(g[a], sure, Ask(m))
  }

  // ----- Where the sources of an answer come from -----

  /** Key `m` has source `s`: it is cached with it, or not cached and consults it. */
  ghost predicate Has(g: Graph, sure: bool, c: Cache, m: Key, s: Source) {
    if m in c then s in c[m].sources else m in g && Consults(g[m], sure, Leaf(s))
  }

  /** Going on from `k` no further than the first cached key, something has source `s`. */
  ghost predicate Origin(g: Graph, sure: bool, c: Cache, k: Key, s: Source) {
    exists m :: Reachable(Steps(g, sure, c), k, m) && Has(g, sure, c, m, s)
  }

  /** All sources cached since `c` have an origin. */
  ghost predicate Traced(g: Graph, c: Cache, c': Cache) {
    forall k, s | k in c' && s in c'[k].sources :: Origin(g, false, c, k, s)
  }

  ghost predicate AllTraced(g: Graph, c: Cache, k: Key, sources: seq<Source>) {
    forall s | s in sources :: Origin(g, false, c, k, s)
  }

  lemma OwnOrigin(g: Graph, sure: bool, c: Cache, k: Key, s: Source)
    requires Has(g, sure, c, k, s)
    ensures Origin(g, sure, c, k, s)
  {
    ReachesItself(Steps(g, sure, c), k);
  }

  lemma OriginThroughAsk(g: Graph, c: Cache, k: Key, m: Key, s: Source)
    requires k in g && k !in c && Possible(g[k], Ask(m)) && Origin(g, false, c, m, s)
    ensures Origin(g, false, c, k, s)
  {
    var o :| Reachable(Steps(g, false, c), m, o) && Has(g, false, c, o, s);
    StepThenReach(Steps(g, false, c), k, m, o);
  }

  lemma {:induction false} QueryTraced(g: Graph, start: Cache, c: Cache, path: set<Key>, k: Key)
    requires Closed(g) && k in g && c.Keys !! path && start.Items <= c.Items && Traced(g, start, c)
    ensures
      var (c', a) := Query(g, c, path, k);
      Traced(g, start, c') && AllTraced(g, start, k, a.sources)
    decreases g.Keys - path, 1, 0
  {
    if k !in c && k !in path {
      BodyTraced(g, start, c, path, k);
    }
  }

  lemma {:induction false} BodyTraced(g: Graph, start: Cache, c: Cache, path: set<Key>, k: Key)
    requires Closed(g) && k in g && c.Keys !! path && k !in c && k !in path
    requires start.Items <= c.Items && Traced(g, start, c)
    ensures
      var (c', a) := Body(g, c, path, k);
      Traced(g, start, c') && AllTraced(g, start, k, a.sources)
    decreases g.Keys - path, 0, 0
  {
    NodeWithin(g, k);
    StillCached(start, c);
    assert k in g.Keys - path && k !in g.Keys - (path + {k});
    var drivers := g[k].drivers;
    DriversTraced(g, start, c, path + {k}, drivers, k);
    var (c1, f) := Drivers(g, c, path + {k}, drivers);
    if f.kept == 0 {
      DriverLeafYields(g, c, path + {k}, k);
      var e := Fallback(g[k], f.logicOnly);
      assert e.items == FallbackItems(g[k]);
      ItemsTraced(g, start, c1, path + {k}, e.items, k);
    }
  }

  /** A driver with a source of its own yields it, so that the fallback is not consulted. */
  lemma DriverLeafYields(g: Graph, c: Cache, path: set<Key>, k: Key)
    requires Closed(g) && k in g && c.Keys !! path
    ensures ExprsWithin(g, g[k].drivers)
    ensures Drivers(g, c, path, g[k].drivers).1.kept == 0 ==> !SomeDriverLeaf(g[k])
  {
    NodeWithin(g, k);
    DriversFlow(g, c, path, g[k].drivers);
    var (c1, f) := Drivers(g, c, path, g[k].drivers);
    if e, x :| e in g[k].drivers && x in e.items && x.Leaf? {
      assert AllCovered(c, path, g[k].drivers, c1, f.sources) && Covered(c, path, e.items, c1, f.sources);
      assert x == Leaf(x.source) && x.source in f.sources;
    }
  }

  lemma {:induction false} DriversTraced(g: Graph, start: Cache, c: Cache, path: set<Key>, drivers: seq<Expr>,
                                         owner: Key)
    requires Closed(g) && owner in g && c.Keys !! path && start.Items <= c.Items && Traced(g, start, c)
    requires owner !in start && forall e | e in drivers :: e in g[owner].drivers
    requires ExprsWithin(g, drivers)
    ensures
      var (c', f) := Drivers(g, c, path, drivers);
      Traced(g, start, c') && AllTraced(g, start, owner, f.sources)
    decreases g.Keys - path, 4, |drivers|
  {
    if drivers != [] {
      var front, e := drivers[..|drivers| - 1], drivers[|drivers| - 1];
      DriversTraced(g, start, c, path, front, owner);
      assert e in drivers && forall x | x in e.items :: InDrivers(g[owner], x);
      ItemsTraced(g, start, Drivers(g, c, path, front).0, path, e.items, owner);
    }
  }

  lemma {:induction false} ItemsTraced(g: Graph, start: Cache, c: Cache, path: set<Key>, items: seq<Item>, owner: Key)
    requires Closed(g) && owner in g && c.Keys !! path && start.Items <= c.Items && Traced(g, start, c)
    requires owner !in start && forall x | x in items :: Possible(g[owner], x)
    requires AsksWithin(g, items)
    ensures
      var (c', a) := Items(g, c, path, items);
      Traced(g, start, c') && AllTraced(g, start, owner, a.sources)
    decreases g.Keys - path, 2, |items|
  {
    if items != [] {
      var front, x := items[..|items| - 1], items[|items| - 1];
      assert x in items;
      ItemsTraced(g, start, c, path, front, owner);
      var (c1, a) := Items(g, c, path, front);
      match x
      case Leaf(s) =>
        OwnOrigin(g, false, start, owner, s);
      case Ask(m) =>
        QueryTraced(g, start, c1, path, m);
        forall s | s in Query(g, c1, path, m).1.sources
          ensures Origin(g, false, start, owner, s)
        {
          OriginThroughAsk(g, start, owner, m, s);
        }
    }
  }

  /** From any cache, whatever is returned has an origin. */
  lemma AnswerSound(g: Graph, c: Cache, k: Key, s: Source)
    requires Closed(g) && k in g && s in Query(g, c, {}, k).1.sources
    ensures Origin(g, false, c, k, s)
  {
    forall m, t | m in c && t in c[m].sources
      ensures Origin(g, false, c, m, t)
    {
      OwnOrigin(g, false, c, m, t);
    }
    QueryTraced(g, c, c, {}, k);
  }

  // ----- What an answer cannot miss -----

  ghost predicate AllIn(some: seq<Source>, all: seq<Source>) {
    forall s | s in some :: s in all
  }

  /** An entry that was added to cache `c` while the keys in `path` were in progress. */
  ghost predicate Entered(g: Graph, c: Cache, path: set<Key>, c': Cache, m: Key)
    requires m in c'
  {
    && m in g
    && (forall s | Sure(g[m], Leaf(s)) :: s in c'[m].sources)
    && (forall d | Sure(g[m], Ask(d)) :: d in c' || d in path)
    && (forall d | Sure(g[m], Ask(d)) && d in c :: AllIn(c[d].sources, c'[m].sources))
  }

  /** What a search that extended cache `c` to `c'` and returned `sources` accounts for. */
  ghost predicate Flowed(g: Graph, c: Cache, path: set<Key>, c': Cache, sources: seq<Source>) {
    forall m | m in c' && m !in c :: AllIn(c'[m].sources, sources) && Entered(g, c, path, c', m)
  }

  ghost predicate Covered(c: Cache, path: set<Key>, items: seq<Item>, c': Cache, sources: seq<Source>) {
    && (forall s | Leaf(s) in items :: s in sources)
    && (forall d | Ask(d) in items :: d in c' || d in path)
    && (forall d | Ask(d) in items && d in c :: AllIn(c[d].sources, sources))
  }

  lemma StillCached(c1: Cache, c2: Cache)
    requires c1.Items <= c2.Items
    ensures forall d | d in c1 :: d in c2 && c2[d] == c1[d]
  {
    forall d | d in c1
      ensures d in c2 && c2[d] == c1[d]
    {
      assert (d, c1[d]) in c1.Items;
    }
  }

  lemma FlowedJoins(g: Graph, c: Cache, path: set<Key>, c1: Cache, s1: seq<Source>, c2: Cache, s2: seq<Source>)
    requires c.Items <= c1.Items && c1.Items <= c2.Items
    requires Flowed(g, c, path, c1, s1) && Flowed(g, c1, path, c2, s2)
    ensures Flowed(g, c, path, c2, s1 + s2)
  {
    StillCached(c, c1);
    StillCached(c1, c2);
    forall m | m in c2 && m !in c
      ensures AllIn(c2[m].sources, s1 + s2) && Entered(g, c, path, c2, m)
    {
      if m in c1 {
        assert Entered(g, c, path, c1, m) && c2[m] == c1[m];
      } else {
        assert Entered(g, c1, path, c2, m);
      }
    }
  }

  lemma CoveredJoins(c: Cache, path: set<Key>, items: seq<Item>, c1: Cache, s1: seq<Source>, c2: Cache, s2: seq<Source>)
    requires c1.Items <= c2.Items && Covered(c, path, items, c1, s1)
    ensures Covered(c, path, items, c2, s1 + s2)
  {
    StillCached(c1, c2);
  }

  ghost predicate AllCovered(c: Cache, path: set<Key>, drivers: seq<Expr>, c': Cache, sources: seq<Source>) {
    forall e | e in drivers :: Covered(c, path, e.items, c', sources)
  }

  lemma AllCoveredJoins(c: Cache, path: set<Key>, drivers: seq<Expr>, c1: Cache, s1: seq<Source>,
                        c2: Cache, s2: seq<Source>)
    requires c1.Items <= c2.Items && AllCovered(c, path, drivers, c1, s1)
    ensures AllCovered(c, path, drivers, c2, s1 + s2)
  {
    forall e | e in drivers
      ensures Covered(c, path, e.items, c2, s1 + s2)
    {
      CoveredJoins(c, path, e.items, c1, s1, c2, s2);
    }
  }

  lemma NextDriverCovered(c: Cache, path: set<Key>, front: seq<Expr>, e: Expr, c1: Cache, s1: seq<Source>,
                          c2: Cache, s2: seq<Source>)
    requires c.Items <= c1.Items && c1.Items <= c2.Items
    requires AllCovered(c, path, front, c1, s1) && Covered(c1, path, e.items, c2, s2)
    ensures AllCovered(c, path, front + [e], c2, s1 + s2)
  {
    CoveredFrom(c, c1, path, e.items, c2, s2);
    AllCoveredJoins(c, path, front, c1, s1, c2, s2);
  }

  /** Covering from a larger cache is covering. */
  lemma CoveredFrom(c: Cache, c1: Cache, path: set<Key>, items: seq<Item>, c2: Cache, sources: seq<Source>)
    requires c.Items <= c1.Items && Covered(c1, path, items, c2, sources)
    ensures Covered(c, path, items, c2, sources)
  {
    StillCached(c, c1);
  }

  lemma {:induction false} QueryFlows(g: Graph, c: Cache, path: set<Key>, k: Key)
    requires Closed(g) && k in g && c.Keys !! path
    ensures
      var (c', a) := Query(g, c, path, k);
      Flowed(g, c, path, c', a.sources)
    decreases g.Keys - path, 1, 0
  {
    if k !in c && k !in path {
      NodeWithin(g, k);
      assert k in g.Keys - path && k !in g.Keys - (path + {k});
      BodyFlows(g, c, path, k);
      var (c2, a) := Body(g, c, path, k);
      NewEntryFlows(g, c, path, c2, k, a);
    }
  }

  /** What evaluating `k` itself accounts for. */
  ghost predicate Evaluated(g: Graph, c: Cache, path: set<Key>, c': Cache, k: Key, sources: seq<Source>)
    requires k in g
  {
    && (forall s | Sure(g[k], Leaf(s)) :: s in sources)
    && (forall d | Sure(g[k], Ask(d)) :: d in c' || d in path)
    && (forall d | Sure(g[k], Ask(d)) && d in c :: AllIn(c[d].sources, sources))
  }

  lemma NewEntryFlows(g: Graph, c: Cache, path: set<Key>, c2: Cache, k: Key, a: Answer)
    requires k in g && k !in c2
    requires Flowed(g, c, path + {k}, c2, a.sources) && Evaluated(g, c, path + {k}, c2, k, a.sources)
    ensures Flowed(g, c, path, c2[k := a], a.sources)
  {
    forall m | m in c2[k := a] && m !in c
      ensures AllIn(c2[k := a][m].sources, a.sources) && Entered(g, c, path, c2[k := a], m)
    {
      if m != k {
        assert Entered(g, c, path + {k}, c2, m);
      }
    }
  }

  lemma {:induction false} BodyFlows(g: Graph, c: Cache, path: set<Key>, k: Key)
    requires Closed(g) && k in g && c.Keys !! path && k !in c && k !in path
    ensures
      var (c', a) := Body(g, c, path, k);
      Flowed(g, c, path + {k}, c', a.sources) && Evaluated(g, c, path + {k}, c', k, a.sources)
    decreases g.Keys - path, 0, 0
  {
    NodeWithin(g, k);
    assert k in g.Keys - path && k !in g.Keys - (path + {k});
    var inner, drivers := path + {k}, g[k].drivers;
    DriversFlow(g, c, inner, drivers);
    var (c1, f) := Drivers(g, c, inner, drivers);
    if f.kept > 0 {
      YieldingHasItems(g, c, inner, k);
      AllDriversCovered(g, c, inner, c1, k, f.sources);
      assert Body(g, c, path, k) == (c1, Summary(f));
    } else {
      var e := Fallback(g[k], f.logicOnly);
      assert e.items == FallbackItems(g[k]);
      ItemsFlow(g, c1, inner, e.items);
      var (c2, a) := ItemsOf(g, c1, inner, e);
      assert f.sources == [] && Body(g, c, path, k) == (c2, a);
      FallbackFlows(g, c, inner, c1, c2, k, a.sources);
    }
  }

  lemma FallbackFlows(g: Graph, c: Cache, path: set<Key>, c1: Cache, c2: Cache, k: Key, sources: seq<Source>)
    requires k in g && c.Items <= c1.Items && c1.Items <= c2.Items
    requires Flowed(g, c, path, c1, []) && AllCovered(c, path, g[k].drivers, c1, [])
    requires Flowed(g, c1, path, c2, sources) && Covered(c1, path, FallbackItems(g[k]), c2, sources)
    ensures Flowed(g, c, path, c2, sources) && Evaluated(g, c, path, c2, k, sources)
  {
    assert [] + sources == sources;
    FlowedJoins(g, c, path, c1, [], c2, sources);
    CoveredFrom(c, c1, path, FallbackItems(g[k]), c2, sources);
    AllCoveredJoins(c, path, g[k].drivers, c1, [], c2, sources);
    AllDriversCovered(g, c, path, c2, k, sources);
  }

  /** A node whose drivers are covered, and its fallback if it has nothing else, is accounted for. */
  lemma AllDriversCovered(g: Graph, c: Cache, path: set<Key>, c': Cache, k: Key, sources: seq<Source>)
    requires k in g && AllCovered(c, path, g[k].drivers, c', sources)
    requires NoDriverItems(g[k]) ==> Covered(c, path, FallbackItems(g[k]), c', sources)
    ensures Evaluated(g, c, path, c', k, sources)
  {
  }

  lemma YieldingHasItems(g: Graph, c: Cache, path: set<Key>, k: Key)
    requires Closed(g) && k in g && c.Keys !! path && ExprsWithin(g, g[k].drivers)
    requires Drivers(g, c, path, g[k].drivers).1.kept > 0
    ensures !NoDriverItems(g[k])
  {
    if NoDriverItems(g[k]) {
      EmptyDriversYieldNothing(g, c, path, g[k].drivers);
    }
  }

  lemma {:induction false} EmptyDriversYieldNothing(g: Graph, c: Cache, path: set<Key>, drivers: seq<Expr>)
    requires Closed(g) && c.Keys !! path && ExprsWithin(g, drivers)
    requires forall e | e in drivers :: e.items == []
    ensures Drivers(g, c, path, drivers).1.kept == 0
  {
    if drivers != [] {
      var front, e := drivers[..|drivers| - 1], drivers[|drivers| - 1];
      assert e in drivers;
      EmptyDriversYieldNothing(g, c, path, front);
      assert ItemsOf(g, Drivers(g, c, path, front).0, path, e).1.sources == [];
    }
  }

  lemma {:induction false} DriversFlow(g: Graph, c: Cache, path: set<Key>, drivers: seq<Expr>)
    requires Closed(g) && c.Keys !! path && ExprsWithin(g, drivers)
    ensures
      var (c', f) := Drivers(g, c, path, drivers);
      && Flowed(g, c, path, c', f.sources)
      && AllCovered(c, path, drivers, c', f.sources)
      && (f.kept == 0 <==> f.sources == [])
    decreases g.Keys - path, 4, |drivers|
  {
    if drivers != [] {
      var front, e := drivers[..|drivers| - 1], drivers[|drivers| - 1];
      DriversFlow(g, c, path, front);
      var (c1, f) := Drivers(g, c, path, front);
      assert e in drivers;
      ItemsFlow(g, c1, path, e.items);
      var (c2, a) := ItemsOf(g, c1, path, e);
      FlowedJoins(g, c, path, c1, f.sources, c2, a.sources);
      NextDriverCovered(c, path, front, e, c1, f.sources, c2, a.sources);
      assert drivers == front + [e];
      assert AddDriver(f, a).sources == f.sources + a.sources;
    }
  }

  lemma {:induction false} ItemsFlow(g: Graph, c: Cache, path: set<Key>, items: seq<Item>)
    requires Closed(g) && c.Keys !! path && AsksWithin(g, items)
    ensures
      var (c', a) := Items(g, c, path, items);
      Flowed(g, c, path, c', a.sources) && Covered(c, path, items, c', a.sources)
    decreases g.Keys - path, 2, |items|
  {
    if items != [] {
      var front, x := items[..|items| - 1], items[|items| - 1];
      ItemsFlow(g, c, path, front);
      var (c1, a) := Items(g, c, path, front);
      assert forall y | y in items :: y in front || y == x;
      match x
      case Leaf(s) =>
      case Ask(k) =>
        assert Ask(k) in items;
        QueryFlows(g, c1, path, k);
        var (c2, b) := Query(g, c1, path, k);
        FlowedJoins(g, c, path, c1, a.sources, c2, b.sources);
        CoveredJoins(c, path, front, c1, a.sources, c2, b.sources);
        StillCached(c, c1);
    }
  }

  /** From any cache, whatever is sure to be met is returned. */
  lemma AnswerComplete(g: Graph, c: Cache, k: Key, s: Source)
    requires Closed(g) && k in g && Origin(g, true, c, k, s)
    ensures s in Query(g, c, {}, k).1.sources
  {
    QueryFlows(g, c, {}, k);
    var (c', a) := Query(g, c, {}, k);
    StillCached(c, c');
    var m :| Reachable(Steps(g, true, c), k, m) && Has(g, true, c, m, s);
    var held := set x | x in c' && AllIn(c'[x].sources, a.sources);
    forall x, y | x in held && Steps(g, true, c)(x, y)
      ensures y in held
    {
      assert Entered(g, c, {}, c', x);
    }
    ClosedHolds(Steps(g, true, c), held, k, m);
    assert m !in c ==> Entered(g, c, {}, c', m);
  }

  // ----- When an answer depends on the cache -----

  /**
   Whether the fallback of a node is consulted does not depend on other nodes, or does not matter: a
   driver has a source of its own, or there is nothing to drive it, or the fallback has nothing that
   the drivers do not have (as for a signal with one continuous assignment).
   */
  ghost predicate DecidedNode(node: Node) {
    || SomeDriverLeaf(node) || NoDriverItems(node)
    || forall x | x in FallbackItems(node) :: InDrivers(node, x)
  }

  /** So for every node that the search can come to. */
  ghost predicate Decided(g: Graph, c: Cache, k: Key) {
    forall m | Reachable(Steps(g, false, c), k, m) && m in g && m !in c :: DecidedNode(g[m])
  }

  lemma DecidedConsults(node: Node, x: Item)
    requires DecidedNode(node) && Possible(node, x)
    ensures Sure(node, x)
  {
  }

  /**
   From any cache, the sources of an answer are exactly those met before a cached key, or held by
   the first cached key that is met.
   */
  lemma AnswerIff(g: Graph, c: Cache, k: Key, s: Source)
    requires Closed(g) && k in g && Decided(g, c, k)
    ensures s in Query(g, c, {}, k).1.sources <==> Origin(g, true, c, k, s)
  {
    if s in Query(g, c, {}, k).1.sources {
      AnswerSound(g, c, k, s);
      DecidedOrigin(g, c, k, s);
    }
    if Origin(g, true, c, k, s) {
      AnswerComplete(g, c, k, s);
    }
  }

  lemma DecidedOrigin(g: Graph, c: Cache, k: Key, s: Source)
    requires Decided(g, c, k) && Origin(g, false, c, k, s)
    ensures Origin(g, true, c, k, s)
  {
    var may, must := Steps(g, false, c), Steps(g, true, c);
    var m :| Reachable(may, k, m) && Has(g, false, c, m, s);
    var n: nat :| Within(may, k, m, n);
    forall x, y | Reachable(may, k, x) && may(x, y)
      ensures must(x, y)
    {
      DecidedConsults(g[x], Ask(y));
    }
    ReachableByMore(may, must, k, m, n);
    if m !in c {
      DecidedConsults(g[m], Leaf(s));
    }
  }

  /** A cache whose entries hold only leaves that can be reached, as every sequence of queries leaves it. */
  ghost predicate CacheSound(g: Graph, c: Cache) {
    Traced(g, map[], c)
  }

  /** Stopping at a sound cache never finds more. */
  lemma OriginFromScratch(g: Graph, c: Cache, k: Key, s: Source)
    requires CacheSound(g, c) && Origin(g, false, c, k, s)
    ensures Origin(g, false, map[], k, s)
  {
    var near, far := Steps(g, false, c), Steps(g, false, map[]);
    var m :| Reachable(near, k, m) && Has(g, false, c, m, s);
    if m in c {
      assert Origin(g, false, map[], m, s);
    } else {
      OwnOrigin(g, false, map[], m, s);
    }
    var o :| Reachable(far, m, o) && Has(g, false, map[], o, s);
    var n: nat, l: nat :| Within(near, k, m, n) && Within(far, m, o, l);
    ReachThenReach(near, far, k, m, o, n);
  }

  lemma DecidedAnywhere(g: Graph, c: Cache, k: Key)
    requires Decided(g, map[], k)
    ensures Decided(g, c, k)
  {
    var near, far := Steps(g, false, c), Steps(g, false, map[]);
    forall m | Reachable(near, k, m) && m in g && m !in c
      ensures DecidedNode(g[m])
    {
      ReachesItself(far, m);
      var n: nat :| Within(near, k, m, n);
      ReachThenReach(near, far, k, m, m, n);
    }
  }

  /**
   A key that is asked after others has the sources it would have had if asked first exactly when
   each of them is met before a cached key, or is held by the first cached key that is met. It
   never has any other source.
   */
  lemma SameSourcesIff(g: Graph, c: Cache, k: Key)
    requires Closed(g) && k in g && CacheSound(g, c) && Decided(g, map[], k)
    ensures
      var first, later := Query(g, map[], {}, k).1.sources, Query(g, c, {}, k).1.sources;
      && AllIn(later, first)
      && (AllIn(first, later) <==> forall s | Origin(g, true, map[], k, s) :: Origin(g, true, c, k, s))
  {
    DecidedAnywhere(g, c, k);
    forall s
      ensures s in Query(g, map[], {}, k).1.sources <==> Origin(g, true, map[], k, s)
      ensures s in Query(g, c, {}, k).1.sources <==> Origin(g, true, c, k, s)
      ensures Origin(g, true, c, k, s) ==> Origin(g, true, map[], k, s)
    {
      AnswerIff(g, map[], k, s);
      AnswerIff(g, c, k, s);
      if s in Query(g, c, {}, k).1.sources {
        AnswerSound(g, c, k, s);
        OriginFromScratch(g, c, k, s);
        DecidedOrigin(g, map[], k, s);
      }
    }
  }

  /** A cached source is a leaf that can be reached, and an answer from such a cache has no other. */
  lemma QuerySound(g: Graph, c: Cache, path: set<Key>, k: Key)
    requires Closed(g) && k in g && c.Keys !! path && CacheSound(g, c)
    ensures
      var (c', a) := Query(g, c, path, k);
      CacheSound(g, c') && AllTraced(g, map[], k, a.sources)
  {
    QueryTraced(g, map[], c, path, k);
  }

  /** From an empty cache, cycles or not, no leaf that is sure to be consulted is missed. */
  lemma FirstQueryComplete(g: Graph, k: Key, m: Key, s: Source)
    requires Closed(g) && k in g && m in g
    requires Reachable(Steps(g, true, map[]), k, m) && Sure(g[m], Leaf(s))
    ensures s in Query(g, map[], {}, k).1.sources
  {
    AnswerComplete(g, map[], k, s);
  }

  // ----- Any sequence of queries -----

  /** With cycles every answer still consists of reachable leaves. */
  lemma {:induction false} SessionSound(g: Graph, queries: seq<Key>)
    requires Closed(g) && forall k | k in queries :: k in g
    ensures
      var (c, answers) := Session(g, queries);
      && CacheSound(g, c)
      && (forall i | 0 <= i < |queries| :: AllTraced(g, map[], queries[i], answers[i].sources))
  {
    if queries != [] {
      SessionSound(g, queries[..|queries| - 1]);
      QuerySound(g, Session(g, queries[..|queries| - 1]).0, {}, queries[|queries| - 1]);
    }
  }

  /**
   With cycles or not, after any queries a key has the sources it would have had if asked first
   exactly when each of them is met before a cached key or is held by the first cached key met.
   */
  lemma AskedLaterIff(g: Graph, queries: seq<Key>, k: Key)
    requires Closed(g) && (forall q | q in queries :: q in g) && k in g && Decided(g, map[], k)
    ensures
      var c := Session(g, queries).0;
      var first, later := Query(g, map[], {}, k).1.sources, Query(g, c, {}, k).1.sources;
      && Session(g, queries + [k]).1[|queries|].sources == later
      && AllIn(later, first)
      && (AllIn(first, later) <==> forall s | Origin(g, true, map[], k, s) :: Origin(g, true, c, k, s))
  {
    SessionSound(g, queries);
    SameSourcesIff(g, Session(g, queries).0, k);
    assert (queries + [k])[..|queries|] == queries;
  }

  // ----- An answer that depends on the cache -----

  function FromDriver(items: seq<Item>): Node {
    Node([Expr(items, false)], [], [], None, [], None)
  }

  lemma QueryOneDriver(g: Graph, c: Cache, path: set<Key>, k: Key, items: seq<Item>)
    requires Closed(g) && k in g && g[k].drivers == [Expr(items, false)]
    requires c.Keys !! path && k !in c && k !in path
    requires AsksWithin(g, items) && Items(g, c, path + {k}, items).1.sources != []
    ensures
      var (c1, a) := Items(g, c, path + {k}, items);
      Query(g, c, path, k) == (c1[k := a], a)
  {
    NodeWithin(g, k);
    var drivers := g[k].drivers;
    assert drivers[..0] == [] && drivers[0] in drivers;
    assert Drivers(g, c, path + {k}, drivers[..0]) == (c, Found([], 0, false, false));
    var (c1, a) := Items(g, c, path + {k}, items);
    assert ItemsOf(g, c, path + {k}, drivers[0]) == (c1, a);
    assert [] + a.sources == a.sources;
    assert Drivers(g, c, path + {k}, drivers) == (c1, Found(a.sources, 1, a.logic, false));
  }

  lemma LeafThenAsk(g: Graph, c: Cache, path: set<Key>, s: Source, k: Key)
    requires Closed(g) && k in g && c.Keys !! path
    ensures
      var (c1, a) := Query(g, c, path, k);
      Items(g, c, path, [Leaf(s), Ask(k)]) == (c1, Answer([s] + a.sources, a.logic))
  {
    assert [Leaf(s), Ask(k)][..1] == [Leaf(s)];
    OneLeaf(g, c, path, s);
  }

  lemma AskThenLeaf(g: Graph, c: Cache, path: set<Key>, k: Key, s: Source)
    requires Closed(g) && k in g && c.Keys !! path
    ensures
      var (c1, a) := Query(g, c, path, k);
      Items(g, c, path, [Ask(k), Leaf(s)]) == (c1, Answer(a.sources + [s], a.logic))
  {
    assert [Ask(k), Leaf(s)][..1] == [Ask(k)];
    AskAnswer(g, c, path, k);
  }

  const CYCLE: Graph := map["a" := FromDriver([Leaf("x"), Ask("b")]), "b" := FromDriver([Ask("a"), Leaf("y")])]

  lemma CycleClosed()
    ensures Closed(CYCLE) && "a" in CYCLE && "b" in CYCLE
    ensures CYCLE["a"] == FromDriver([Leaf("x"), Ask("b")]) && CYCLE["b"] == FromDriver([Ask("a"), Leaf("y")])
  {
  }

  lemma BAskedFirst()
    ensures Closed(CYCLE) && "b" in CYCLE
    ensures Query(CYCLE, map[], {}, "b").1 == Answer(["x", "y"], false)
  {
    CycleClosed();
    var g := CYCLE;
    assert ["x"] + [] == ["x"] && ["x"] + ["y"] == ["x", "y"] && {} + {"b"} == {"b"};
    LeafThenAsk(g, map[], {"b"} + {"a"}, "x", "b");
    QueryOneDriver(g, map[], {"b"}, "a", [Leaf("x"), Ask("b")]);
    AskThenLeaf(g, map[], {"b"}, "a", "y");
    QueryOneDriver(g, map[], {}, "b", [Ask("a"), Leaf("y")]);
  }

  lemma AAskedFirst()
    ensures Closed(CYCLE) && "a" in CYCLE
    ensures
      var (c, a) := Query(CYCLE, map[], {}, "a");
      a == Answer(["x", "y"], false) && "b" in c && c["b"] == Answer(["y"], false)
  {
    CycleClosed();
    var g := CYCLE;
    assert [] + ["y"] == ["y"] && ["x"] + ["y"] == ["x", "y"] && {} + {"a"} == {"a"};
    AskThenLeaf(g, map[], {"a"} + {"b"}, "a", "y");
    QueryOneDriver(g, map[], {"a"}, "b", [Ask("a"), Leaf("y")]);
    LeafThenAsk(g, map[], {"a"}, "x", "b");
    QueryOneDriver(g, map[], {}, "a", [Leaf("x"), Ask("b")]);
  }

  /**
   Signals `a` and `b` drive each other, and each has one source of its own. Asked first, `b` finds
   both sources; asked after `a`, it returns what was cached while `a` was cut out.
   */
  lemma CyclesMakeOrderVisible()
    ensures Closed(CYCLE) && "a" in CYCLE && "b" in CYCLE
    ensures Session(CYCLE, ["b"]).1 == [Answer(["x", "y"], false)]
    ensures Session(CYCLE, ["a", "b"]).1 == [Answer(["x", "y"], false), Answer(["y"], false)]
  {
    BAskedFirst();
    AAskedFirst();
    assert Session(CYCLE, []) == (map[], []);
    assert ["b"][..0] == [];
    var (c, a) := Query(CYCLE, map[], {}, "a");
    assert ["a", "b"][..1] == ["a"] && ["a"][..0] == [];
    assert [] + [a] == [a];
    assert Session(CYCLE, ["a"]) == (Query(CYCLE, Session(CYCLE, []).0, {}, "a").0, [] + [a]);
    assert Session(CYCLE, ["a"]) == (c, [a]);
  }

  const UNDECIDED: Graph := map[
    "u" := Node([Expr([Ask("d")], false)], [], [], Some("x"), [], None),
    "d" := FromDriver([Leaf("y")])]

  lemma UndecidedGraph()
    ensures Closed(UNDECIDED) && "u" in UNDECIDED && "d" in UNDECIDED
    ensures UNDECIDED["u"].drivers == [Expr([Ask("d")], false)] && UNDECIDED["d"] == FromDriver([Leaf("y")])
    ensures !DecidedNode(UNDECIDED["u"]) && Possible(UNDECIDED["u"], Leaf("x"))
  {
    var u := UNDECIDED["u"];
    assert FallbackItems(u) == [Leaf("x")] && Leaf("x") in FallbackItems(u);
    assert u.drivers[0] in u.drivers && u.drivers[0].items != [];
  }

  lemma UndecidedAnswer()
    ensures Closed(UNDECIDED) && "u" in UNDECIDED
    ensures Query(UNDECIDED, map[], {}, "u").1.sources == ["y"]
  {
    UndecidedGraph();
    var g := UNDECIDED;
    OneLeaf(g, map[], {} + {"u"} + {"d"}, "y");
    QueryOneDriver(g, map[], {} + {"u"}, "d", [Leaf("y")]);
    AskAnswer(g, map[], {} + {"u"}, "d");
    QueryOneDriver(g, map[], {}, "u", [Ask("d")]);
  }

  /** The driver of `u` only names `d`, so that nothing in `u` itself tells whether its fallback `x` is consulted. */
  lemma FallbackMayBeUnused()
    ensures Closed(UNDECIDED) && "u" in UNDECIDED && !DecidedNode(UNDECIDED["u"])
    ensures Query(UNDECIDED, map[], {}, "u").1.sources == ["y"]
    ensures Origin(UNDECIDED, false, map[], "u", "x")
  {
    UndecidedGraph();
    UndecidedAnswer();
    assert Has(UNDECIDED, false, map[], "u", "x");
    OwnOrigin(UNDECIDED, false, map[], "u", "x");
  }

  lemma OneLeaf(g: Graph, c: Cache, path: set<Key>, s: Source)
    requires Closed(g) && c.Keys !! path
    ensures Items(g, c, path, [Leaf(s)]) == (c, Answer([s], false))
  {
    assert [Leaf(s)][..0] == [] && Items(g, c, path, []) == (c, NO_ANSWER);
    assert [] + [s] == [s];
  }

}
