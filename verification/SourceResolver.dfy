/**
 The memoised driver search of the SystemVerilog frontend (`_resolve_sources_with_logic`): a
 depth-first search over signals that caches answers and cuts cycles.

 The elaborated design is a finite graph. Each key (a signal, possibly with a bit range, already
 normalized) has driver expressions and the data consulted when no driver yields a source. An
 expression contributes leaf sources and the answers for other keys, in order.
 `_combine_disjoint_drivers` is taken to decline.
 */
module SourceResolver {
  import opened Wrappers

  type Key = string
  type Source = string

  datatype Item = Leaf(source: Source) | Ask(key: Key)

  /** `logic` tells that the expression itself goes through procedural logic. */
  datatype Expr = Expr(items: seq<Item>, logic: bool)

  datatype Text = LiteralText(source: Source) | NameText(key: Key) | OtherText

  datatype Node = Node(
    drivers: seq<Expr>,
    contExprs: seq<Expr>,
    contTexts: seq<Text>,
    external: Option<Source>,
    instances: seq<Source>,
    procedural: Option<seq<Expr>>)

  type Graph = map<Key, Node>

  datatype Answer = Answer(sources: seq<Source>, logic: bool)
  type Cache = map<Key, Answer>

  const NO_ANSWER := Answer([], false)

  // ----- The graph -----

  function Leaves(sources: seq<Source>): seq<Item> {
    seq(|sources|, i requires 0 <= i < |sources| => Leaf(sources[i]))
  }

  function AllItems(exprs: seq<Expr>): seq<Item> {
    if exprs == [] then [] else AllItems(exprs[..|exprs| - 1]) + exprs[|exprs| - 1].items
  }

  /** What `_resolve_no_driver_sources` falls back to, in its order of preference. */
  function Fallback(node: Node, logicOnly: bool): Expr {
    if node.contExprs != [] then node.contExprs[0]
    else if node.contTexts != [] && node.contTexts[0].LiteralText? then Expr([Leaf(node.contTexts[0].source)], false)
    else if node.contTexts != [] && node.contTexts[0].NameText? then Expr([Ask(node.contTexts[0].key)], false)
    else if node.external.Some? then Expr([Leaf(node.external.value)], false)
    else if node.instances != [] then Expr(Leaves(node.instances), false)
    else if node.procedural.Some? then Expr(AllItems(node.procedural.value), true)
    else Expr([], logicOnly)
  }

  /** The fallback's items do not depend on the flag. */
  function FallbackItems(node: Node): seq<Item> {
    Fallback(node, false).items
  }

  ghost predicate InDrivers(node: Node, x: Item) {
    exists e | e in node.drivers :: x in e.items
  }

  ghost predicate InNode(node: Node, x: Item) {
    InDrivers(node, x) || x in FallbackItems(node)
  }

  ghost predicate Closed(g: Graph) {
    forall k, m | k in g && InNode(g[k], Ask(m)) :: m in g
  }

  ghost predicate AsksWithin(g: Graph, items: seq<Item>) {
    forall m | Ask(m) in items :: m in g
  }

  ghost predicate ExprsWithin(g: Graph, exprs: seq<Expr>) {
    forall e | e in exprs :: AsksWithin(g, e.items)
  }

  // ----- The search, with cache and resolving set passed along -----

  function Join(a: Answer, b: Answer): Answer {
    Answer(a.sources + b.sources, a.logic || b.logic)
  }

  datatype Found = Found(sources: seq<Source>, kept: nat, logic: bool, logicOnly: bool)

  /** One more driver: those without sources only contribute their flag. */
  function AddDriver(f: Found, a: Answer): Found {
    if a.sources == []
    then f.(logicOnly := f.logicOnly || a.logic)
    else Found(f.sources + a.sources, f.kept + 1, f.logic || a.logic, f.logicOnly)
  }

  function Summary(f: Found): Answer {
    Answer(f.sources, f.kept > 1 || f.logicOnly || f.logic)
  }

  function Query(g: Graph, c: Cache, path: set<Key>, k: Key): (r: (Cache, Answer))
    requires Closed(g) && k in g && c.Keys !! path
    ensures c.Items <= r.0.Items && r.0.Keys !! path
    ensures k in r.0 || k in path
    decreases g.Keys - path, 1, 0
  {
    if k in c then (c, c[k])
    else if k in path then (c, NO_ANSWER)
    else
      var (c1, a) := Body(g, c, path, k);
      CacheGrows(c, c1, k, a);
      (c1[k := a], a)
  }

  function Body(g: Graph, c: Cache, path: set<Key>, k: Key): (r: (Cache, Answer))
    requires Closed(g) && k in g && c.Keys !! path && k !in c && k !in path
    ensures c.Items <= r.0.Items && r.0.Keys !! path + {k}
    decreases g.Keys - path, 0, 0
  {
    NodeWithin(g, k);
    assert k in g.Keys - path && k !in g.Keys - (path + {k});
    var (c1, f) := Drivers(g, c, path + {k}, g[k].drivers);
    if f.kept > 0 then (c1, Summary(f))
    else ItemsOf(g, c1, path + {k}, Fallback(g[k], f.logicOnly))
  }

  function Drivers(g: Graph, c: Cache, path: set<Key>, drivers: seq<Expr>): (r: (Cache, Found))
    requires Closed(g) && ExprsWithin(g, drivers) && c.Keys !! path
    ensures c.Items <= r.0.Items && r.0.Keys !! path
    decreases g.Keys - path, 4, |drivers|
  {
    if drivers == [] then (c, Found([], 0, false, false))
    else
      var (c1, f) := Drivers(g, c, path, drivers[..|drivers| - 1]);
      var (c2, a) := ItemsOf(g, c1, path, drivers[|drivers| - 1]);
      (c2, AddDriver(f, a))
  }

  function ItemsOf(g: Graph, c: Cache, path: set<Key>, e: Expr): (r: (Cache, Answer))
    requires Closed(g) && AsksWithin(g, e.items) && c.Keys !! path
    ensures c.Items <= r.0.Items && r.0.Keys !! path
    decreases g.Keys - path, 3, 0
  {
    var (c1, a) := Items(g, c, path, e.items);
    (c1, a.(logic := a.logic || e.logic))
  }

  function Items(g: Graph, c: Cache, path: set<Key>, items: seq<Item>): (r: (Cache, Answer))
    requires Closed(g) && AsksWithin(g, items) && c.Keys !! path
    ensures c.Items <= r.0.Items && r.0.Keys !! path
    decreases g.Keys - path, 2, |items|
  {
    if items == [] then (c, NO_ANSWER)
    else
      var (c1, a) := Items(g, c, path, items[..|items| - 1]);
      match items[|items| - 1]
      case Leaf(s) => (c1, Join(a, Answer([s], false)))
      case Ask(k) =>
        var (c2, b) := Query(g, c1, path, k);
        (c2, Join(a, b))
  }

  lemma CacheGrows(c: Cache, c1: Cache, k: Key, a: Answer)
    requires c.Items <= c1.Items && k !in c1
    ensures c.Items <= c1[k := a].Items
  {
    forall i | i in c.Items
      ensures i in c1[k := a].Items
    {
      assert i in c1.Items;
    }
  }

  lemma NodeWithin(g: Graph, k: Key)
    requires Closed(g) && k in g
    ensures ExprsWithin(g, g[k].drivers)
    ensures AsksWithin(g, FallbackItems(g[k]))
  {
  }

  // ----- Any sequence of queries -----

  function Session(g: Graph, queries: seq<Key>): (r: (Cache, seq<Answer>))
    requires Closed(g) && forall k | k in queries :: k in g
    ensures |r.1| == |queries|
  {
    if queries == [] then (map[], [])
    else
      var (c, answers) := Session(g, queries[..|queries| - 1]);
      var (c', a) := Query(g, c, {}, queries[|queries| - 1]);
      (c', answers + [a])
  }

  // ----- The stateful resolver -----

  class Resolver {
    const graph: Graph
    var cache: Cache
    var resolving: set<Key>
    /** The keys whose evaluation was started, in order. */
    ghost var evaluated: seq<Key>

    /** No key is evaluated twice: those evaluated are exactly the cached ones and the ones in progress. */
    ghost predicate EvaluatedOnce()
      reads this
    {
      && (forall i, j | 0 <= i < j < |evaluated| :: evaluated[i] != evaluated[j])
      && (forall k :: k in evaluated <==> k in cache || k in resolving)
    }

    ghost predicate Valid()
      reads this
    {
      Closed(graph) && cache.Keys !! resolving && EvaluatedOnce()
    }

    constructor (g: Graph)
      requires Closed(g)
      ensures Valid() && graph == g && cache == map[] && resolving == {} && evaluated == []
    {
      graph, cache, resolving, evaluated := g, map[], {}, [];
    }

    method Resolve(k: Key) returns (a: Answer)
      requires Valid() && k in graph
      modifies this`cache, this`resolving, this`evaluated
      ensures Valid() && resolving == old(resolving)
      ensures (cache, a) == Query(graph, old(cache), resolving, k)
      ensures old(cache).Items <= cache.Items && old(evaluated) <= evaluated
      decreases graph.Keys - resolving, 1, 0
    {
      if k in cache {
        return cache[k];
      }
      if k in resolving {
        return NO_ANSWER;
      }
      assert k in graph.Keys - resolving && k !in graph.Keys - (resolving + {k});
      resolving := resolving + {k};
      evaluated := evaluated + [k];
      a := ResolveBody(k);
      CacheGrows(old(cache), cache, k, a);
      cache := cache[k := a];
      resolving := resolving - {k};
      assert resolving == old(resolving);
    }

    method ResolveBody(k: Key) returns (a: Answer)
      requires Valid() && k in graph && k in resolving
      modifies this`cache, this`resolving, this`evaluated
      ensures Valid() && resolving == old(resolving)
      ensures (cache, a) == Body(graph, old(cache), resolving - {k}, k)
      ensures old(evaluated) <= evaluated
      decreases graph.Keys - resolving, 3, 0
    {
      NodeWithin(graph, k);
      assert resolving - {k} + {k} == resolving;
      var drivers := graph[k].drivers;
      var f := Found([], 0, false, false);
      for i := 0 to |drivers|
        invariant Valid() && resolving == old(resolving) && old(evaluated) <= evaluated
        invariant ExprsWithin(graph, drivers[..i])
        invariant (cache, f) == Drivers(graph, old(cache), resolving, drivers[..i])
      {
        assert drivers[..i + 1][..i] == drivers[..i];
        var b := Evaluate(drivers[i]);
        f := AddDriver(f, b);
      }
      assert drivers[..|drivers|] == drivers;
      if f.kept > 0 {
        return Summary(f);
      }
      a := Evaluate(Fallback(graph[k], f.logicOnly));
    }

    method Evaluate(e: Expr) returns (a: Answer)
      requires Valid() && AsksWithin(graph, e.items)
      modifies this`cache, this`resolving, this`evaluated
      ensures Valid() && resolving == old(resolving)
      ensures (cache, a) == ItemsOf(graph, old(cache), resolving, e)
      ensures old(evaluated) <= evaluated
      decreases graph.Keys - resolving, 2, 0
    {
      a := NO_ANSWER;
      for i := 0 to |e.items|
        invariant Valid() && resolving == old(resolving) && old(evaluated) <= evaluated
        invariant AsksWithin(graph, e.items[..i])
        invariant (cache, a) == Items(graph, old(cache), resolving, e.items[..i])
      {
        assert e.items[..i + 1][..i] == e.items[..i];
        match e.items[i]
        case Leaf(s) =>
          a := Join(a, Answer([s], false));
        case Ask(k) =>
          assert Ask(k) in e.items;
          var b := Resolve(k);
          a := Join(a, b);
      }
      assert e.items[..|e.items|] == e.items;
      a := a.(logic := a.logic || e.logic);
    }
  }
}
