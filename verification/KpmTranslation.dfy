/**
 The mutable forms of the translation to and from KPM dataflows, proved against `KpmDataflows`:
 the backend fills a graph, its references and its constant cache; the frontend fills tables of
 inverter edges.
 */
module KpmTranslation {
  import opened Wrappers
  import opened SvNetlist
  import opened KpmDataflows

  lemma JoinUpdate<K, V>(m: map<K, V>, n: map<K, V>, k: K, v: V)
    ensures m + n[k := v] == (m + n)[k := v]
  {
  }

  lemma PortRefsSnoc(n: nat, ports: seq<Pin>, p: Pin)
    ensures PortRefs(n, ports + [p]) == PortRefs(n, ports)[p := Interface(n, |ports|)]
  {
    assert (ports + [p])[..|ports|] == ports;
  }

  class DataflowBackend {
    var nodes: seq<Node>
    var edges: seq<Edge>
    var refs: map<Pin, Interface>
    var consts: map<string, nat>

    function Built(): Builder
      reads this
    {
      Builder(Graph(nodes, edges), refs, consts)
    }

    constructor ()
      ensures Built() == EMPTY
    {
      nodes, edges, refs, consts := [], [], map[], map[];
    }

    method Add(node: Node) returns (n: nat)
      modifies this`nodes
      ensures n == old(|nodes|) && nodes == old(nodes) + [node]
    {
      n := |nodes|;
      nodes := nodes + [node];
    }

    method Link(first: Interface, second: Interface)
      modifies this`edges
      ensures Graph(nodes, edges) == Connect(old(Graph(nodes, edges)), first, second)
    {
      var i1, i2 := first, second;
      if DirectionOf(nodes, i1).In? {
        i1, i2 := i2, i1;
      }
      if Edge(i1, i2) !in edges {
        edges := edges + [Edge(i1, i2)];
      }
    }

    method AddPortRefs(n: nat, ports: seq<Pin>)
      modifies this`refs
      ensures refs == old(refs) + PortRefs(n, ports)
    {
      ghost var given := refs;
      for i := 0 to |ports|
        invariant refs == given + PortRefs(n, ports[..i])
      {
        assert ports[..i + 1] == ports[..i] + [ports[i]];
        PortRefsSnoc(n, ports[..i], ports[i]);
        JoinUpdate(given, PortRefs(n, ports[..i]), ports[i], Interface(n, i));
        refs := refs[ports[i] := Interface(n, i)];
      }
      assert ports[..|ports|] == ports;
    }

    method AddInstancePorts(ports: seq<Pin>)
      modifies this`nodes, this`refs
      ensures Built() == AddInstance(old(Built()), ports)
    {
      var n := Add(InstanceNode(ports));
      AddPortRefs(n, ports);
    }

    method AddExternalPort(p: Pin)
      modifies this`nodes, this`refs
      ensures Built() == AddExternal(old(Built()), p)
    {
      var exposed, target := match p.dir case In => 0 case Out => 1 case InOut => 2,
                             match p.dir case In => 1 case Out => 0 case InOut => 2;
      var n := Add(ExternalNode(p.port, exposed));
      refs := refs[p := Interface(n, target)];
    }

    method Ensure(p: Pin)
      modifies this`nodes, this`refs
      ensures Built() == EnsureExternal(old(Built()), p)
    {
      if p !in refs && p.inst.None? {
        AddExternalPort(p);
      }
    }

    method Represented(c: Connection)
      requires Registered(Built(), c)
      modifies this
      ensures Built() == AddConnection(old(Built()), c)
    {
      match c
      case ConstantConnection(value, target) =>
        if value !in consts {
          var n := Add(ConstantNode(value));
          consts := consts[value := n];
        }
        Ensure(target.pin);
        Link(Interface(consts[value], 0), refs[target.pin]);
      case PortConnection(source, other, invert) =>
        Ensure(source.pin);
        Ensure(other.pin);
        if invert {
          var n := Add(InverterNode);
          var ref1, ref2 := refs[source.pin], refs[other.pin];
          if DirectionOf(nodes, ref1).In? {
            ref1, ref2 := ref2, ref1;
          }
          Link(ref1, Interface(n, 0));
          Link(Interface(n, 1), ref2);
        } else {
          Link(refs[source.pin], refs[other.pin]);
        }
    }
  }

  method AddParts(backend: DataflowBackend, d: Design)
    requires backend.Built() == EMPTY
    modifies backend
    ensures backend.Built() == Components(d)
  {
    for i := 0 to |d.instances|
      invariant backend.Built() == AddInstances(EMPTY, d.instances[..i])
    {
      assert d.instances[..i + 1][..i] == d.instances[..i];
      backend.AddInstancePorts(d.instances[i]);
    }
    assert d.instances[..|d.instances|] == d.instances;
    ghost var b := backend.Built();
    for i := 0 to |d.ports|
      invariant backend.Built() == AddExternals(b, d.ports[..i])
    {
      assert d.ports[..i + 1][..i] == d.ports[..i];
      backend.AddExternalPort(d.ports[i]);
    }
    assert d.ports[..|d.ports|] == d.ports;
  }

  lemma AddOneMore(b: Builder, conns: seq<Connection>, i: nat)
    requires i < |conns| && AllRegistered(b, conns)
    ensures AllRegistered(b, conns[..i]) && AllRegistered(b, conns[..i + 1])
    ensures Registered(AddConnections(b, conns[..i]), conns[i])
    ensures AddConnections(b, conns[..i + 1]) == AddConnection(AddConnections(b, conns[..i]), conns[i])
  {
    var more := conns[..i + 1];
    assert more[..|more| - 1] == conns[..i] && conns[i] in conns;
    assert forall c | c in more :: c in conns;
  }

  method AddAll(backend: DataflowBackend, conns: seq<Connection>)
    requires AllRegistered(backend.Built(), conns)
    modifies backend
    ensures backend.Built() == AddConnections(old(backend.Built()), conns)
  {
    ghost var b := backend.Built();
    for i := 0 to |conns|
      invariant AllRegistered(b, conns[..i])
      invariant backend.Built() == AddConnections(b, conns[..i])
    {
      AddOneMore(b, conns, i);
      backend.Represented(conns[i]);
    }
    assert conns[..|conns|] == conns;
  }

  method RepresentDesign(d: Design) returns (g: Graph)
    requires AllRegistered(Components(d), d.connections)
    ensures g == Represent(d)
  {
    var backend := new DataflowBackend();
    AddParts(backend, d);
    AddAll(backend, d.connections);
    g := Graph(backend.nodes, backend.edges);
  }

  // ----- Frontend -----

  /** The first edge that gives no connection decides the error. */
  lemma {:induction false} DirectFails(nodes: seq<Node>, edges: seq<Edge>, i: nat)
    requires i <= |edges| && DirectConnections(nodes, edges[..i]).Failure?
    ensures DirectConnections(nodes, edges) == DirectConnections(nodes, edges[..i])
  {
    if i == |edges| {
      assert edges[..i] == edges;
    } else {
      var front := edges[..|edges| - 1];
      assert front[..i] == edges[..i];
      DirectFails(nodes, front, i);
    }
  }

  lemma {:induction false} InvertedFails(nodes: seq<Node>, edges: seq<Edge>, i: nat, count: nat)
    requires i <= count <= |nodes| && InvertedConnections(nodes, edges, i).Failure?
    ensures InvertedConnections(nodes, edges, count) == InvertedConnections(nodes, edges, i)
  {
    if i < count {
      InvertedFails(nodes, edges, i, count - 1);
    }
  }

  function Lookup(m: map<nat, Interface>, n: nat): Option<Interface> {
    if n in m then Some(m[n]) else None
  }

  method ProcessConnections(g: Graph)
    returns (r: Result<seq<Connection>, Error>, into: map<nat, Interface>, from: map<nat, Interface>)
    ensures r == DirectConnections(g.nodes, g.edges)
    ensures r.Success? ==>
              forall n: nat ::
                && Lookup(into, n) == IntoInverter(g.nodes, g.edges, n)
                && Lookup(from, n) == FromInverter(g.nodes, g.edges, n)
  {
    into, from := map[], map[];
    var conns: seq<Connection> := [];
    for i := 0 to |g.edges|
      invariant DirectConnections(g.nodes, g.edges[..i]) == Success(conns)
      invariant forall n: nat :: Lookup(into, n) == IntoInverter(g.nodes, g.edges[..i], n)
      invariant forall n: nat :: Lookup(from, n) == FromInverter(g.nodes, g.edges[..i], n)
    {
      var e, more := g.edges[i], g.edges[..i + 1];
      assert more[..|more| - 1] == g.edges[..i] && more[|more| - 1] == e;
      var special := false;
      if OfInverter(g.nodes, e.from) {
        from := from[e.from.node := e.to];
        special := true;
      }
      if OfInverter(g.nodes, e.to) {
        into := into[e.to.node := e.from];
        special := true;
      }
      if special {
        continue;
      }
      var c := CreateConnection(Resolve(g.nodes, e.from), Resolve(g.nodes, e.to), false);
      if c.Failure? {
        DirectFails(g.nodes, g.edges, i + 1);
        return Failure(c.error), into, from;
      }
      conns := conns + [c.value];
    }
    assert g.edges[..|g.edges|] == g.edges;
    r := Success(conns);
  }

  method ParseDataflow(g: Graph) returns (r: Result<seq<Connection>, Error>)
    ensures r == Parse(g)
  {
    var direct, into, from := ProcessConnections(g);
    if direct.Failure? {
      return direct;
    }
    var inverted: seq<Connection> := [];
    for i := 0 to |g.nodes|
      invariant InvertedConnections(g.nodes, g.edges, i) == Success(inverted)
    {
      if g.nodes[i].InverterNode? {
        var c := InverterConnection(g.nodes, Lookup(into, i), Lookup(from, i));
        if c.Failure? {
          InvertedFails(g.nodes, g.edges, i + 1, |g.nodes|);
          return Failure(c.error);
        }
        inverted := inverted + [c.value];
      }
    }
    return Success(direct.value + inverted);
  }
}
