/**
 Type inference for external ports of a KPM dataflow (`_infer_io_type`): a search through the net
 of an interface, across external nodes, interconnects and subgraph levels.
 */
module KpmInference {
  import opened Reachability
  import opened Wrappers

  /** An interface is identified by its graph and its id; the same id can occur on several levels. */
  datatype Key = Key(graph: string, id: string)

  type Type = string

  datatype Interface = Interface(id: string, name: string, externalName: Option<string>)

  datatype Kind = Io | Interconnect | OtherMetanode | Ordinary

  datatype Node = Node(kind: Kind, name: string, interfaces: seq<Interface>, subgraph: Option<string>)

  datatype Io = Io(name: string, typ: Type)

  /**
   `owners` is `intfnodemap` (with the interface itself), `links` is `intfconnmap`, `graphs` the
   nodes of each graph, and `modules` the interfaces and other ports of the loaded modules.
   */
  datatype Dataflow = Dataflow(
    owners: map<Key, (Node, Interface)>,
    links: map<string, seq<Key>>,
    graphs: map<string, seq<Node>>,
    modules: map<string, seq<Io>>)

  function Links(d: Dataflow, id: string): seq<Key> {
    if id in d.links then d.links[id] else []
  }

  predicate IsPinName(name: string) {
    name == "clk" || name == "rst"
  }

  function AllLinks(d: Dataflow, interfaces: seq<Interface>): seq<Key> {
    if interfaces == [] then []
    else AllLinks(d, interfaces[..|interfaces| - 1]) + Links(d, interfaces[|interfaces| - 1].id)
  }

  /** Clock and reset of an interconnect form one group, its buses the other. */
  function GroupLinks(d: Dataflow, interfaces: seq<Interface>, pins: bool): seq<Key> {
    if interfaces == [] then []
    else
      var last := interfaces[|interfaces| - 1];
      GroupLinks(d, interfaces[..|interfaces| - 1], pins)
      + if IsPinName(last.name) == pins then Links(d, last.id) else []
  }

  /** The first interface of a node that is exposed under a name. */
  function Exposed(graph: string, interfaces: seq<Interface>, name: string): seq<Key> {
    if interfaces == [] then []
    else if interfaces[0].externalName == Some(name) then [Key(graph, interfaces[0].id)]
    else Exposed(graph, interfaces[1..], name)
  }

  function Inside(graph: string, nodes: seq<Node>, name: string): seq<Key> {
    if nodes == [] then []
    else Inside(graph, nodes[..|nodes| - 1], name) + Exposed(graph, nodes[|nodes| - 1].interfaces, name)
  }

  /** Where the search goes on from an interface, in order. */
  function Next(d: Dataflow, k: Key): seq<Key>
    requires k in d.owners
  {
    var (node, itf) := d.owners[k];
    if node.kind.Io? then AllLinks(d, node.interfaces)
    else if node.kind.Interconnect? then GroupLinks(d, node.interfaces, IsPinName(itf.name))
    else if node.kind.Ordinary? && node.subgraph.Some? then
      Links(d, itf.id)
      + if node.subgraph.value in d.graphs
        then Inside(node.subgraph.value, d.graphs[node.subgraph.value], itf.name)
        else []
    else []
  }

  function TypesNamed(ios: seq<Io>, name: string): seq<Type> {
    if ios == [] then []
    else TypesNamed(ios[..|ios| - 1], name)
         + if ios[|ios| - 1].name == name then [ios[|ios| - 1].typ] else []
  }

  /** The types known at an interface: those of the pins of that name of a loaded module. */
  function TypesAt(d: Dataflow, k: Key): seq<Type>
    requires k in d.owners
  {
    var (node, itf) := d.owners[k];
    if node.kind.Ordinary? && node.subgraph.None? && node.name in d.modules
    then TypesNamed(d.modules[node.name], itf.name)
    else []
  }

  // ----- What a net is -----

  /** `m` is linked to the interface of that id. */
  ghost predicate LinkedTo(d: Dataflow, id: string, m: Key) {
    id in d.links && m in d.links[id]
  }

  ghost predicate IsClockOrReset(name: string) {
    name in {"clk", "rst"}
  }

  /** `m` is the first interface of node `n` of graph `graph` that is exposed as `name`. */
  ghost predicate ExposedFirst(graph: string, n: Node, name: string, m: Key) {
    exists i | 0 <= i < |n.interfaces| ::
      && n.interfaces[i].externalName == Some(name) && m == Key(graph, n.interfaces[i].id)
      && forall j | 0 <= j < i :: n.interfaces[j].externalName != Some(name)
  }

  /**
   Interfaces `k` and `m` are next to each other in a net. The interfaces of an external node are one
   with all that is linked to them; those of an interconnect with what is linked to the clock and
   reset, or to the buses, whichever they belong to; those of a subgraph with what is linked to them
   outside and with what is exposed under their name inside. Nets end at all other nodes.
   */
  ghost predicate Neighbour(d: Dataflow, k: Key, m: Key) {
    && k in d.owners
    && var (node, itf) := d.owners[k];
    match node.kind
    case Io => exists i | i in node.interfaces :: LinkedTo(d, i.id, m)
    case Interconnect =>
      exists i | i in node.interfaces ::
        (IsClockOrReset(i.name) <==> IsClockOrReset(itf.name)) && LinkedTo(d, i.id, m)
    case Ordinary =>
      && node.subgraph.Some?
      && (|| LinkedTo(d, itf.id, m)
          || (node.subgraph.value in d.graphs
              && exists n | n in d.graphs[node.subgraph.value] :: ExposedFirst(node.subgraph.value, n, itf.name, m)))
    case OtherMetanode => false
  }

  /** The interface belongs to an instance of a loaded module, which has a port or interface of that name and type. */
  ghost predicate HasType(d: Dataflow, k: Key, t: Type) {
    && k in d.owners
    && var (node, itf) := d.owners[k];
    && node.kind.Ordinary? && node.subgraph.None? && node.name in d.modules
    && exists io | io in d.modules[node.name] :: io.name == itf.name && io.typ == t
  }

  lemma {:induction false} AllLinksIff(d: Dataflow, interfaces: seq<Interface>, m: Key)
    ensures m in AllLinks(d, interfaces) <==> exists i | i in interfaces :: LinkedTo(d, i.id, m)
  {
    if interfaces != [] {
      var front, last := interfaces[..|interfaces| - 1], interfaces[|interfaces| - 1];
      assert interfaces == front + [last];
      AllLinksIff(d, front, m);
    }
  }

  lemma {:induction false} GroupLinksIff(d: Dataflow, interfaces: seq<Interface>, pins: bool, m: Key)
    ensures m in GroupLinks(d, interfaces, pins) <==>
            exists i | i in interfaces :: IsClockOrReset(i.name) == pins && LinkedTo(d, i.id, m)
  {
    if interfaces != [] {
      var front, last := interfaces[..|interfaces| - 1], interfaces[|interfaces| - 1];
      assert interfaces == front + [last];
      GroupLinksIff(d, front, pins, m);
    }
  }

  lemma {:induction false} ExposedIff(graph: string, n: Node, interfaces: seq<Interface>, at: nat, name: string, m: Key)
    requires at <= |n.interfaces| && interfaces == n.interfaces[at..]
    requires forall j | 0 <= j < at :: n.interfaces[j].externalName != Some(name)
    ensures m in Exposed(graph, interfaces, name) <==> ExposedFirst(graph, n, name, m)
    decreases |interfaces|
  {
    if interfaces != [] && interfaces[0].externalName != Some(name) {
      ExposedIff(graph, n, interfaces[1..], at + 1, name, m);
    }
  }

  lemma {:induction false} InsideIff(graph: string, nodes: seq<Node>, name: string, m: Key)
    ensures m in Inside(graph, nodes, name) <==> exists n | n in nodes :: ExposedFirst(graph, n, name, m)
  {
    if nodes != [] {
      var front, last := nodes[..|nodes| - 1], nodes[|nodes| - 1];
      assert nodes == front + [last];
      InsideIff(graph, front, name, m);
      ExposedIff(graph, last, last.interfaces, 0, name, m);
    }
  }

  /** The search goes on exactly to the neighbours. */
  lemma NextIff(d: Dataflow, k: Key, m: Key)
    requires k in d.owners
    ensures m in Next(d, k) <==> Neighbour(d, k, m)
  {
    var (node, itf) := d.owners[k];
    AllLinksIff(d, node.interfaces, m);
    GroupLinksIff(d, node.interfaces, IsClockOrReset(itf.name), m);
    if node.subgraph.Some? && node.subgraph.value in d.graphs {
      InsideIff(node.subgraph.value, d.graphs[node.subgraph.value], itf.name, m);
    }
  }

  lemma {:induction false} TypesNamedIff(ios: seq<Io>, name: string, t: Type)
    ensures t in TypesNamed(ios, name) <==> exists io | io in ios :: io.name == name && io.typ == t
  {
    if ios != [] {
      var front, last := ios[..|ios| - 1], ios[|ios| - 1];
      assert ios == front + [last];
      TypesNamedIff(front, name, t);
    }
  }

  lemma TypesAtIff(d: Dataflow, k: Key, t: Type)
    requires k in d.owners
    ensures t in TypesAt(d, k) <==> HasType(d, k, t)
  {
    var (node, itf) := d.owners[k];
    if node.name in d.modules {
      TypesNamedIff(d.modules[node.name], itf.name, t);
    }
  }

  /** Neighbours of known interfaces are known. */
  ghost predicate Closed(d: Dataflow) {
    forall k, m | k in d.owners && Neighbour(d, k, m) :: m in d.owners
  }

  ghost function Steps(d: Dataflow): (Key, Key) -> bool {
    (a: Key, m: Key) => Neighbour(d, a, m)
  }

  ghost function Types(d: Dataflow): (Key, Type) -> bool {
    (k: Key, t: Type) => HasType(d, k, t)
  }

  /** `m` belongs to the net of `k`. */
  ghost predicate Connected(d: Dataflow, k: Key, m: Key) {
    Reachable(Steps(d), k, m)
  }

  // ----- What a search accounts for -----

  /**
   Searching from `roots` visited only what can be reached, left no neighbour of it unvisited, and found
   its types.
   */
  ghost predicate Explored(step: (Key, Key) -> bool, typed: (Key, Type) -> bool, roots: seq<Key>,
                           before: set<Key>, after: set<Key>, types: seq<Type>) {
    && before <= after
    && (forall a | a in roots :: a in after)
    && (forall k | k in after && k !in before ::
          && (exists a | a in roots :: Reachable(step, a, k))
          && (forall m | step(k, m) :: m in after))
    && (forall t :: t in types <==> exists k | k in after && k !in before :: typed(k, t))
  }

  lemma ExploredMore(step: (Key, Key) -> bool, typed: (Key, Type) -> bool, roots: seq<Key>, before: set<Key>,
                     mid: set<Key>, types: seq<Type>, root: Key, after: set<Key>, more: seq<Type>)
    requires Explored(step, typed, roots, before, mid, types) && Explored(step, typed, [root], mid, after, more)
    ensures Explored(step, typed, roots + [root], before, after, types + more)
  {
    assert root in [root];
    forall k | k in after && k !in before
      ensures exists a | a in roots + [root] :: Reachable(step, a, k)
      ensures forall m | step(k, m) :: m in after
    {
      if k in mid {
        var a :| a in roots && Reachable(step, a, k);
        assert a in roots + [root];
      } else {
        var a :| a in [root] && Reachable(step, a, k);
        assert a in roots + [root];
      }
    }
    forall t
      ensures t in types + more <==> exists k | k in after && k !in before :: typed(k, t)
    {
      if t in types {
        var k :| k in mid && k !in before && typed(k, t);
      }
      if t in more {
        var k :| k in after && k !in mid && typed(k, t);
      }
    }
  }

  /** One interface and then everything next to it. */
  lemma ExploredRoot(step: (Key, Key) -> bool, typed: (Key, Type) -> bool, root: Key, next: seq<Key>, own: seq<Type>,
                     before: set<Key>, after: set<Key>, types: seq<Type>)
    requires root !in before && Explored(step, typed, next, before + {root}, after, types)
    requires forall m :: m in next <==> step(root, m)
    requires forall t :: t in own <==> typed(root, t)
    ensures Explored(step, typed, [root], before, after, own + types)
  {
    assert root in [root];
    forall k | k in after && k !in before
      ensures Reachable(step, root, k) && forall m | step(k, m) :: m in after
    {
      if k == root {
        ReachesItself(step, root);
      } else {
        var a :| a in next && Reachable(step, a, k);
        StepThenReach(step, root, a, k);
      }
    }
    forall t
      ensures t in own + types <==> exists k | k in after && k !in before :: typed(k, t)
    {
      if t in types {
        var k :| k in after && k !in before + {root} && typed(k, t);
        assert k !in before;
      }
      if k :| k in after && k !in before && typed(k, t) {
        assert k == root || k !in before + {root};
      }
    }
  }

  class Search {
    const data: Dataflow
    var visited: set<Key>

    constructor (data: Dataflow)
      ensures this.data == data && visited == {}
    {
      this.data, visited := data, {};
    }

    method Infer(k: Key) returns (types: seq<Type>)
      requires Closed(data) && k in data.owners
      modifies this
      ensures Explored(Steps(data), Types(data), [k], old(visited), visited, types)
      decreases data.owners.Keys - visited
    {
      if k in visited {
        assert k in [k];
        return [];
      }
      ghost var before := visited;
      assert k in data.owners.Keys - visited;
      visited := visited + {k};
      types := [];
      var next, own := Next(data, k), TypesAt(data, k);
      forall m
        ensures m in next <==> Steps(data)(k, m)
      {
        NextIff(data, k, m);
      }
      forall t
        ensures t in own <==> Types(data)(k, t)
      {
        TypesAtIff(data, k, t);
      }
      for i := 0 to |next|
        invariant Explored(Steps(data), Types(data), next[..i], before + {k}, visited, types)
      {
        assert next[i] in next && next[..i + 1] == next[..i] + [next[i]];
        ghost var mid, found := visited, types;
        assert data.owners.Keys - visited < data.owners.Keys - before by {
          assert k in data.owners.Keys - before && k !in data.owners.Keys - visited;
        }
        assert Steps(data)(k, next[i]);
        var more := Infer(next[i]);
        ExploredMore(Steps(data), Types(data), next[..i], before + {k}, mid, found, next[i], visited, more);
        types := types + more;
      }
      assert next[..|next|] == next;
      ExploredRoot(Steps(data), Types(data), k, next, own, before, visited, types);
      types := own + types;
    }
  }

  /** A pin of known type in the net of `k`. */
  ghost predicate TypedPin(d: Dataflow, k: Key, t: Type) {
    exists m :: Connected(d, k, m) && HasType(d, m, t)
  }

  /** From an empty visited set, exactly the types of the pins in the net are found. */
  lemma ExploredExactly(d: Dataflow, k: Key, after: set<Key>, types: seq<Type>, t: Type)
    requires Explored(Steps(d), Types(d), [k], {}, after, types)
    ensures t in types <==> TypedPin(d, k, t)
  {
    assert k in [k];
    if t in types {
      var m :| m in after && m !in {} && Types(d)(m, t);
      var a :| a in [k] && Reachable(Steps(d), a, m);
      assert Connected(d, k, m);
    }
    if TypedPin(d, k, t) {
      var m :| Connected(d, k, m) && HasType(d, m, t);
      ClosedHolds(Steps(d), after, k, m);
      assert Types(d)(m, t);
    }
  }

  /** The type of an external port: one found in its net, or a single bit if there is none. */
  method InferExternal(d: Dataflow, k: Key, bit: Type) returns (types: seq<Type>, typ: Type)
    requires Closed(d) && k in d.owners
    ensures forall t :: t in types <==> TypedPin(d, k, t)
    ensures (exists t :: TypedPin(d, k, t)) ==> TypedPin(d, k, typ)
    ensures (forall t :: !TypedPin(d, k, t)) ==> typ == bit
  {
    var search := new Search(d);
    types := search.Infer(k);
    forall t
      ensures t in types <==> TypedPin(d, k, t)
    {
      ExploredExactly(d, k, search.visited, types, t);
    }
    typ := if types == [] then bit else types[0];
    if types != [] {
      assert types[0] in types;
    }
  }
}
