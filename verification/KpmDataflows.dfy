/**
 Connections as edges of a KPM dataflow, and back: the graph that `KpmDataflowBackend` builds for a
 flat design, and the connections that `KpmDataflowFrontend` reads from it.

 Slices cannot be represented and collapse to the whole port; an inverted connection becomes an
 inverter node with two edges.
 */
module KpmDataflows {
  import opened Wrappers
  import opened SvNetlist

  /**
   `ports` of an instance node are its interfaces, in order. An external node has the interfaces `in`, `out`
   and `inout`, of which the one at `exposed` carries the external name.
   */
  datatype Node =
    | InstanceNode(ports: seq<Pin>)
    | ExternalNode(name: string, exposed: nat)
    | ConstantNode(value: string)
    | InverterNode

  /** An interface of a node; inverters have `in` and `out`. */
  datatype Interface = Interface(node: nat, index: nat)

  datatype Edge = Edge(from: Interface, to: Interface)

  datatype Graph = Graph(nodes: seq<Node>, edges: seq<Edge>)

  /** The graph under construction, with `refs` and the constant node cache. */
  datatype Builder = Builder(graph: Graph, refs: map<Pin, Interface>, consts: map<string, nat>)

  const EMPTY := Builder(Graph([], []), map[], map[])

  // ----- Backend -----

  function DirectionOf(nodes: seq<Node>, i: Interface): Direction {
    if i.node >= |nodes| then InOut
    else
      match nodes[i.node]
      case InstanceNode(ports) => if i.index < |ports| then ports[i.index].dir else InOut
      case ExternalNode(_, _) => ExternalDirection(i.index)
      case ConstantNode(_) => Out
      case InverterNode => if i.index == 0 then In else Out
  }

  function Connect(g: Graph, i1: Interface, i2: Interface): Graph {
    var e := if DirectionOf(g.nodes, i1).In? then Edge(i2, i1) else Edge(i1, i2);
    if e in g.edges then g else g.(edges := g.edges + [e])
  }

  function ExternalDirection(index: nat): Direction {
    if index == 0 then In else if index == 1 then Out else InOut
  }

  /** The interface of an external node that is exposed under the name of the port. */
  function ExposedIndex(dir: Direction): nat {
    match dir case In => 0 case Out => 1 case InOut => 2
  }

  /** The interface of an external node that connections inside the design use. */
  function InnerIndex(dir: Direction): nat {
    match dir case In => 1 case Out => 0 case InOut => 2
  }

  function AddExternal(b: Builder, p: Pin): Builder {
    var n := |b.graph.nodes|;
    b.(graph := b.graph.(nodes := b.graph.nodes + [ExternalNode(p.port, ExposedIndex(p.dir))]),
       refs := b.refs[p := Interface(n, InnerIndex(p.dir))])
  }

  function AddInstance(b: Builder, ports: seq<Pin>): Builder {
    var n := |b.graph.nodes|;
    b.(graph := b.graph.(nodes := b.graph.nodes + [InstanceNode(ports)]),
       refs := b.refs + PortRefs(n, ports))
  }

  /** The interfaces of an instance node, by port; of a repeated port the last. */
  function PortRefs(n: nat, ports: seq<Pin>): (m: map<Pin, Interface>)
    ensures forall p :: p in m <==> p in ports
    ensures forall p | p in m :: m[p].node == n && m[p].index < |ports| && ports[m[p].index] == p
  {
    if ports == [] then map[]
    else PortRefs(n, ports[..|ports| - 1])[ports[|ports| - 1] := Interface(n, |ports| - 1)]
  }

  /** External ports that were not added up front are added when first connected. */
  function EnsureExternal(b: Builder, p: Pin): Builder {
    if p !in b.refs && p.inst.None? then AddExternal(b, p) else b
  }

  /** Instance pins of a connection belong to instances that were added. */
  ghost predicate Registered(b: Builder, c: Connection) {
    match c
    case ConstantConnection(_, target) => target.pin.inst.Some? ==> target.pin in b.refs
    case PortConnection(source, other, _) =>
      && (source.pin.inst.Some? ==> source.pin in b.refs)
      && (other.pin.inst.Some? ==> other.pin in b.refs)
  }

  function EnsureConstant(b: Builder, value: string): Builder {
    if value in b.consts then b
    else
      b.(graph := b.graph.(nodes := b.graph.nodes + [ConstantNode(value)]),
         consts := b.consts[value := |b.graph.nodes|])
  }

  function AddConnection(b: Builder, c: Connection): Builder
    requires Registered(b, c)
  {
    match c
    case ConstantConnection(value, target) =>
      var b2 := EnsureExternal(EnsureConstant(b, value), target.pin);
      b2.(graph := Connect(b2.graph, Interface(b2.consts[value], 0), b2.refs[target.pin]))
    case PortConnection(source, other, invert) =>
      var b2 := EnsureExternal(EnsureExternal(b, source.pin), other.pin);
      var ref1, ref2 := b2.refs[source.pin], b2.refs[other.pin];
      if !invert then b2.(graph := Connect(b2.graph, ref1, ref2))
      else
        var n := |b2.graph.nodes|;
        var g := b2.graph.(nodes := b2.graph.nodes + [InverterNode]);
        var (driver, sink) := if DirectionOf(g.nodes, ref1).In? then (ref2, ref1) else (ref1, ref2);
        b2.(graph := Connect(Connect(g, driver, Interface(n, 0)), Interface(n, 1), sink))
  }

  ghost predicate AllRegistered(b: Builder, conns: seq<Connection>) {
    forall c | c in conns :: Registered(b, c)
  }

  function AddConnections(b: Builder, conns: seq<Connection>): (b': Builder)
    requires AllRegistered(b, conns)
    ensures forall p | p in b.refs :: p in b'.refs
  {
    if conns == [] then b
    else
      var front, c := conns[..|conns| - 1], conns[|conns| - 1];
      assert c in conns && forall d | d in front :: d in conns;
      AddConnection(AddConnections(b, front), c)
  }

  // ----- Frontend -----

  datatype Referenced = PinRef(pin: Pin) | Value(text: string)

  datatype Error = InvalidCombination | InvertedConstant | InverterInputOpen | InverterOutputOpen | InverterNotAtPort

  /** What `refmap` holds for an interface. */
  function Resolve(nodes: seq<Node>, i: Interface): Option<Referenced> {
    if i.node >= |nodes| then None
    else
      match nodes[i.node]
      case InstanceNode(ports) => if i.index < |ports| then Some(PinRef(ports[i.index])) else None
      case ExternalNode(name, exposed) =>
        var dir := ExternalDirection(exposed);
        if i.index == InnerIndex(dir) then Some(PinRef(Pin(None, name, dir))) else None
      case ConstantNode(v) => if i.index == 0 then Some(Value(v)) else None
      case InverterNode => None
  }

  function CreateConnection(source: Option<Referenced>, target: Option<Referenced>, invert: bool)
    : Result<Connection, Error>
  {
    if source.Some? && source.value.Value? && target.Some? && target.value.PinRef? then
      if invert then Failure(InvertedConstant)
      else Success(ConstantConnection(source.value.text, Ref(target.value.pin, [])))
    else if source.Some? && source.value.PinRef? && target.Some? && target.value.PinRef? then
      Success(PortConnection(Ref(source.value.pin, []), Ref(target.value.pin, []), invert))
    else Failure(InvalidCombination)
  }

  predicate OfInverter(nodes: seq<Node>, i: Interface) {
    i.node < |nodes| && nodes[i.node].InverterNode? && i.index < 2
  }

  function DirectConnections(nodes: seq<Node>, edges: seq<Edge>): Result<seq<Connection>, Error> {
    if edges == [] then Success([])
    else
      match DirectConnections(nodes, edges[..|edges| - 1])
      case Failure(e) => Failure(e)
      case Success(conns) =>
        var edge := edges[|edges| - 1];
        if OfInverter(nodes, edge.from) || OfInverter(nodes, edge.to) then Success(conns)
        else
          match CreateConnection(Resolve(nodes, edge.from), Resolve(nodes, edge.to), false)
          case Failure(e) => Failure(e)
          case Success(c) => Success(conns + [c])
  }

  /** The last edge into an inverter node, as `to_inverter_conns` keeps it. */
  function IntoInverter(nodes: seq<Node>, edges: seq<Edge>, n: nat): Option<Interface> {
    if edges == [] then None
    else
      var edge := edges[|edges| - 1];
      if OfInverter(nodes, edge.to) && edge.to.node == n then Some(edge.from)
      else IntoInverter(nodes, edges[..|edges| - 1], n)
  }

  function FromInverter(nodes: seq<Node>, edges: seq<Edge>, n: nat): Option<Interface> {
    if edges == [] then None
    else
      var edge := edges[|edges| - 1];
      if OfInverter(nodes, edge.from) && edge.from.node == n then Some(edge.to)
      else FromInverter(nodes, edges[..|edges| - 1], n)
  }

  function InverterConnection(nodes: seq<Node>, into: Option<Interface>, from: Option<Interface>)
    : Result<Connection, Error>
  {
    if into.None? then Failure(InverterInputOpen)
    else if from.None? then Failure(InverterOutputOpen)
    else if Resolve(nodes, into.value).None? || Resolve(nodes, from.value).None? then Failure(InverterNotAtPort)
    else CreateConnection(Resolve(nodes, into.value), Resolve(nodes, from.value), true)
  }

  /** The inverted connections of the first `count` nodes. */
  function InvertedConnections(nodes: seq<Node>, edges: seq<Edge>, count: nat): Result<seq<Connection>, Error>
    requires count <= |nodes|
  {
    if count == 0 then Success([])
    else
      match InvertedConnections(nodes, edges, count - 1)
      case Failure(e) => Failure(e)
      case Success(conns) =>
        if !nodes[count - 1].InverterNode? then Success(conns)
        else
          match InverterConnection(nodes, IntoInverter(nodes, edges, count - 1), FromInverter(nodes, edges, count - 1))
          case Failure(e) => Failure(e)
          case Success(c) => Success(conns + [c])
  }

  function Parse(g: Graph): Result<seq<Connection>, Error> {
    match DirectConnections(g.nodes, g.edges)
    case Failure(e) => Failure(e)
    case Success(direct) =>
      match InvertedConnections(g.nodes, g.edges, |g.nodes|)
      case Failure(e) => Failure(e)
      case Success(inverted) => Success(direct + inverted)
  }

  // ----- Which graphs can be read -----

  /** A driver end can be joined to a target end: pins to pins, and constants to pins unless inverted. */
  ghost predicate Joinable(nodes: seq<Node>, i: Interface, j: Interface, invert: bool) {
    && (exists q :: Resolve(nodes, j) == Some(PinRef(q)))
    && (|| (exists p :: Resolve(nodes, i) == Some(PinRef(p)))
        || (!invert && exists v :: Resolve(nodes, i) == Some(Value(v))))
  }

  /** What a joined pair of ends is read as. */
  ghost predicate JoinedAs(nodes: seq<Node>, i: Interface, j: Interface, c: Connection) {
    match c
    case ConstantConnection(v, target) =>
      target.select == [] && Resolve(nodes, i) == Some(Value(v)) && Resolve(nodes, j) == Some(PinRef(target.pin))
    case PortConnection(source, other, _) =>
      && source.select == [] && other.select == []
      && Resolve(nodes, i) == Some(PinRef(source.pin)) && Resolve(nodes, j) == Some(PinRef(other.pin))
  }

  lemma CreateConnectionIff(nodes: seq<Node>, i: Interface, j: Interface, invert: bool)
    ensures
      var r := CreateConnection(Resolve(nodes, i), Resolve(nodes, j), invert);
      && (r.Success? <==> Joinable(nodes, i, j, invert))
      && (r.Success? ==> JoinedAs(nodes, i, j, r.value) && (r.value.PortConnection? ==> r.value.invert == invert))
  {
    match (Resolve(nodes, i), Resolve(nodes, j))
    case (Some(PinRef(p)), Some(PinRef(q))) =>
    case (Some(Value(v)), Some(PinRef(q))) =>
    case _ =>
  }

  /** The edge is between ends that are no inverters'. */
  ghost predicate PlainEdge(nodes: seq<Node>, e: Edge) {
    !OfInverter(nodes, e.from) && !OfInverter(nodes, e.to)
  }

  ghost predicate Feeds(nodes: seq<Node>, e: Edge, n: nat) {
    OfInverter(nodes, e.to) && e.to.node == n
  }

  ghost predicate IsFedBy(nodes: seq<Node>, e: Edge, n: nat) {
    OfInverter(nodes, e.from) && e.from.node == n
  }

  /** `i` is where the last edge into inverter `n` comes from. */
  ghost predicate LastInto(nodes: seq<Node>, edges: seq<Edge>, n: nat, i: Interface) {
    exists k | 0 <= k < |edges| ::
      Feeds(nodes, edges[k], n) && edges[k].from == i && forall l | k < l < |edges| :: !Feeds(nodes, edges[l], n)
  }

  /** `j` is where the last edge out of inverter `n` goes to. */
  ghost predicate LastOutOf(nodes: seq<Node>, edges: seq<Edge>, n: nat, j: Interface) {
    exists k | 0 <= k < |edges| ::
      IsFedBy(nodes, edges[k], n) && edges[k].to == j && forall l | k < l < |edges| :: !IsFedBy(nodes, edges[l], n)
  }

  lemma {:induction false} IntoInverterIs(nodes: seq<Node>, edges: seq<Edge>, n: nat, i: Interface)
    ensures IntoInverter(nodes, edges, n) == Some(i) <==> LastInto(nodes, edges, n, i)
  {
    if edges != [] {
      var front, last := edges[..|edges| - 1], edges[|edges| - 1];
      if Feeds(nodes, last, n) {
        assert edges[|edges| - 1] == last;
      } else {
        IntoInverterIs(nodes, front, n, i);
        assert forall k | 0 <= k < |front| :: front[k] == edges[k];
      }
    }
  }

  lemma {:induction false} OutOfInverterIs(nodes: seq<Node>, edges: seq<Edge>, n: nat, j: Interface)
    ensures FromInverter(nodes, edges, n) == Some(j) <==> LastOutOf(nodes, edges, n, j)
  {
    if edges != [] {
      var front, last := edges[..|edges| - 1], edges[|edges| - 1];
      if IsFedBy(nodes, last, n) {
        assert edges[|edges| - 1] == last;
      } else {
        OutOfInverterIs(nodes, front, n, j);
        assert forall k | 0 <= k < |front| :: front[k] == edges[k];
      }
    }
  }

  lemma {:induction false} DirectIff(nodes: seq<Node>, edges: seq<Edge>)
    ensures DirectConnections(nodes, edges).Success? <==>
            forall e | e in edges && PlainEdge(nodes, e) :: Joinable(nodes, e.from, e.to, false)
  {
    if edges != [] {
      var front, e := edges[..|edges| - 1], edges[|edges| - 1];
      assert edges == front + [e];
      DirectIff(nodes, front);
      CreateConnectionIff(nodes, e.from, e.to, false);
    }
  }

  /** An inverter joins the ends of its last edges. */
  ghost predicate Inverts(nodes: seq<Node>, edges: seq<Edge>, n: nat) {
    exists i, j ::
      LastInto(nodes, edges, n, i) && LastOutOf(nodes, edges, n, j) && Joinable(nodes, i, j, true)
  }

  lemma InvertsIff(nodes: seq<Node>, edges: seq<Edge>, n: nat)
    ensures InverterConnection(nodes, IntoInverter(nodes, edges, n), FromInverter(nodes, edges, n)).Success? <==>
            Inverts(nodes, edges, n)
  {
    var into, from := IntoInverter(nodes, edges, n), FromInverter(nodes, edges, n);
    if into.Some? && from.Some? {
      IntoInverterIs(nodes, edges, n, into.value);
      OutOfInverterIs(nodes, edges, n, from.value);
      CreateConnectionIff(nodes, into.value, from.value, true);
    }
    if Inverts(nodes, edges, n) {
      var i, j :| LastInto(nodes, edges, n, i) && LastOutOf(nodes, edges, n, j) && Joinable(nodes, i, j, true);
      IntoInverterIs(nodes, edges, n, i);
      OutOfInverterIs(nodes, edges, n, j);
      CreateConnectionIff(nodes, i, j, true);
    }
  }

  /** Why an inverter cannot be read: an end is open, is at no port, or is a constant that would be inverted. */
  lemma InverterErrorIs(nodes: seq<Node>, edges: seq<Edge>, n: nat)
    ensures
      var r := InverterConnection(nodes, IntoInverter(nodes, edges, n), FromInverter(nodes, edges, n));
      && (r == Failure(InverterInputOpen) <==> !exists i :: LastInto(nodes, edges, n, i))
      && (r == Failure(InverterOutputOpen) <==>
            (exists i :: LastInto(nodes, edges, n, i)) && !exists j :: LastOutOf(nodes, edges, n, j))
      && forall i, j | LastInto(nodes, edges, n, i) && LastOutOf(nodes, edges, n, j) ::
           && (r == Failure(InverterNotAtPort) <==> Resolve(nodes, i).None? || Resolve(nodes, j).None?)
           && (r == Failure(InvertedConstant) <==>
                 exists v, q :: Resolve(nodes, i) == Some(Value(v)) && Resolve(nodes, j) == Some(PinRef(q)))
  {
    var into, from := IntoInverter(nodes, edges, n), FromInverter(nodes, edges, n);
    forall i
      ensures into == Some(i) <==> LastInto(nodes, edges, n, i)
    {
      IntoInverterIs(nodes, edges, n, i);
    }
    forall j
      ensures from == Some(j) <==> LastOutOf(nodes, edges, n, j)
    {
      OutOfInverterIs(nodes, edges, n, j);
    }
    if into.Some? && from.Some? && Resolve(nodes, into.value).Some? && Resolve(nodes, from.value).Some? {
      CreateConnectionIff(nodes, into.value, from.value, true);
    }
  }

  lemma {:induction false} InvertedIff(nodes: seq<Node>, edges: seq<Edge>, count: nat)
    requires count <= |nodes|
    ensures InvertedConnections(nodes, edges, count).Success? <==>
            forall n | 0 <= n < count && nodes[n].InverterNode? :: Inverts(nodes, edges, n)
    decreases count
  {
    if count > 0 {
      InvertedIff(nodes, edges, count - 1);
      InvertsIff(nodes, edges, count - 1);
    }
  }

  /**
   A graph can be read exactly when every edge between other nodes joins a driver to a pin and every
   inverter has an edge in and an edge out, the last of which join pins.
   */
  lemma ParsesIff(g: Graph)
    ensures Parse(g).Success? <==>
            && (forall e | e in g.edges && PlainEdge(g.nodes, e) :: Joinable(g.nodes, e.from, e.to, false))
            && (forall n | 0 <= n < |g.nodes| && g.nodes[n].InverterNode? :: Inverts(g.nodes, g.edges, n))
  {
    DirectIff(g.nodes, g.edges);
    InvertedIff(g.nodes, g.edges, |g.nodes|);
  }

  /** A constant cannot be inverted. */
  lemma InvertedConstantFails(g: Graph, n: nat, i: Interface, v: string)
    requires n < |g.nodes| && g.nodes[n].InverterNode?
    requires LastInto(g.nodes, g.edges, n, i) && Resolve(g.nodes, i) == Some(Value(v))
    ensures Parse(g).Failure?
  {
    ParsesIff(g);
    forall k | LastInto(g.nodes, g.edges, n, k)
      ensures k == i
    {
      IntoInverterIs(g.nodes, g.edges, n, i);
      IntoInverterIs(g.nodes, g.edges, n, k);
    }
  }

  // ----- What should come back -----

  /** The connection without slices, from its driver to its sink. */
  function Canonical(c: Connection): Connection {
    match c
    case ConstantConnection(v, target) => ConstantConnection(v, Ref(target.pin, []))
    case PortConnection(source, other, invert) =>
      if IsDriver(source.pin)
      then PortConnection(Ref(source.pin, []), Ref(other.pin, []), invert)
      else PortConnection(Ref(other.pin, []), Ref(source.pin, []), invert)
  }

  predicate IsInverted(c: Connection) {
    c.PortConnection? && c.invert
  }

  /** Plain connections once each, in order of first occurrence. */
  function PlainOf(conns: seq<Connection>): seq<Connection> {
    if conns == [] then []
    else
      var front, c := PlainOf(conns[..|conns| - 1]), Canonical(conns[|conns| - 1]);
      if IsInverted(c) || c in front then front else front + [c]
  }

  /** Inverted connections, every one of them. */
  function InvertedOf(conns: seq<Connection>): seq<Connection> {
    if conns == [] then []
    else
      InvertedOf(conns[..|conns| - 1]) + if IsInverted(conns[|conns| - 1]) then [Canonical(conns[|conns| - 1])] else []
  }

  // ----- The invariant of the builder -----

  /** Instance nodes have pins of instances. */
  predicate NodeValid(node: Node) {
    match node
    case InstanceNode(ports) => forall p | p in ports :: p.inst.Some?
    case _ => true
  }

  /** `refs` and the constant cache lead to interfaces that resolve back. */
  ghost predicate Indexed(b: Builder) {
    && (forall n | 0 <= n < |b.graph.nodes| :: NodeValid(b.graph.nodes[n]))
    && (forall p | p in b.refs :: Resolve(b.graph.nodes, b.refs[p]) == Some(PinRef(p)))
    && (forall v | v in b.consts :: Resolve(b.graph.nodes, Interface(b.consts[v], 0)) == Some(Value(v)))
  }

  /** The interface used for a pin or a constant. */
  function UsedFor(b: Builder, r: Referenced): Option<Interface> {
    match r
    case PinRef(p) => if p in b.refs then Some(b.refs[p]) else None
    case Value(v) => if v in b.consts then Some(Interface(b.consts[v], 0)) else None
  }

  /** Edges join the interfaces that `refs` and the cache lead to, or inverters. */
  ghost predicate WellUsed(b: Builder, i: Interface) {
    || OfInverter(b.graph.nodes, i)
    || (Resolve(b.graph.nodes, i).Some? && UsedFor(b, Resolve(b.graph.nodes, i).value) == Some(i))
  }

  ghost predicate EdgesWellUsed(b: Builder) {
    forall e | e in b.graph.edges :: WellUsed(b, e.from) && WellUsed(b, e.to)
  }

  ghost predicate BuilderValid(b: Builder) {
    Indexed(b) && EdgesWellUsed(b)
  }

  /** The frontend reads exactly these plain and inverted connections from the graph. */
  ghost predicate Reads(g: Graph, plain: seq<Connection>, inverted: seq<Connection>) {
    && DirectConnections(g.nodes, g.edges) == Success(plain)
    && InvertedConnections(g.nodes, g.edges, |g.nodes|) == Success(inverted)
  }

  /** New nodes do not change what is read, unless they are inverters. */
  lemma {:induction false} NodeKeepsDirect(nodes: seq<Node>, node: Node, edges: seq<Edge>)
    requires forall e | e in edges :: e.from.node < |nodes| && e.to.node < |nodes|
    ensures DirectConnections(nodes + [node], edges) == DirectConnections(nodes, edges)
  {
    if edges != [] {
      assert edges[|edges| - 1] in edges;
      NodeKeepsDirect(nodes, node, edges[..|edges| - 1]);
    }
  }

  lemma {:induction false} NodeKeepsInverterEdges(nodes: seq<Node>, node: Node, edges: seq<Edge>, n: nat)
    requires forall e | e in edges :: e.from.node < |nodes| && e.to.node < |nodes|
    ensures IntoInverter(nodes + [node], edges, n) == IntoInverter(nodes, edges, n)
    ensures FromInverter(nodes + [node], edges, n) == FromInverter(nodes, edges, n)
    ensures n >= |nodes| ==> IntoInverter(nodes, edges, n).None? && FromInverter(nodes, edges, n).None?
    ensures IntoInverter(nodes, edges, n).Some? ==> IntoInverter(nodes, edges, n).value.node < |nodes|
    ensures FromInverter(nodes, edges, n).Some? ==> FromInverter(nodes, edges, n).value.node < |nodes|
  {
    if edges != [] {
      assert edges[|edges| - 1] in edges;
      NodeKeepsInverterEdges(nodes, node, edges[..|edges| - 1], n);
    }
  }

  lemma {:induction false} NodeKeepsInverted(nodes: seq<Node>, node: Node, edges: seq<Edge>, count: nat)
    requires count <= |nodes| && forall e | e in edges :: e.from.node < |nodes| && e.to.node < |nodes|
    ensures InvertedConnections(nodes + [node], edges, count) == InvertedConnections(nodes, edges, count)
  {
    if count > 0 {
      NodeKeepsInverted(nodes, node, edges, count - 1);
      NodeKeepsInverterEdges(nodes, node, edges, count - 1);
    }
  }

  lemma EdgesInRange(b: Builder)
    requires BuilderValid(b)
    ensures forall e | e in b.graph.edges :: e.from.node < |b.graph.nodes| && e.to.node < |b.graph.nodes|
  {
  }

  /** An ordinary node added to the graph changes nothing that is read. */
  lemma NodeAdded(g: Graph, node: Node, plain: seq<Connection>, inverted: seq<Connection>)
    requires Reads(g, plain, inverted) && !node.InverterNode?
    requires forall e | e in g.edges :: e.from.node < |g.nodes| && e.to.node < |g.nodes|
    ensures Reads(g.(nodes := g.nodes + [node]), plain, inverted)
  {
    NodeKeepsDirect(g.nodes, node, g.edges);
    NodeKeepsInverted(g.nodes, node, g.edges, |g.nodes|);
  }

  lemma ExternalAdded(b: Builder, p: Pin, plain: seq<Connection>, inverted: seq<Connection>)
    requires BuilderValid(b) && Reads(b.graph, plain, inverted) && p !in b.refs && p.inst.None?
    ensures BuilderValid(AddExternal(b, p)) && Reads(AddExternal(b, p).graph, plain, inverted)
  {
    EdgesInRange(b);
    NodeAdded(b.graph, ExternalNode(p.port, ExposedIndex(p.dir)), plain, inverted);
    ExternalValid(b, p);
  }

  /** What resolves in a graph still resolves after nodes are added. */
  lemma ResolveStays(nodes: seq<Node>, more: seq<Node>, i: Interface)
    requires nodes <= more && i.node < |nodes|
    ensures Resolve(more, i) == Resolve(nodes, i) && OfInverter(more, i) == OfInverter(nodes, i)
  {
    assert more[i.node] == nodes[i.node];
  }

  /** More nodes, references and constants leave the edges well used. */
  lemma GrownValid(b: Builder, b': Builder)
    requires BuilderValid(b) && Indexed(b')
    requires b.graph.nodes <= b'.graph.nodes && b'.graph.edges == b.graph.edges
    requires forall p | p in b.refs :: p in b'.refs && b'.refs[p] == b.refs[p]
    requires forall v | v in b.consts :: v in b'.consts && b'.consts[v] == b.consts[v]
    ensures BuilderValid(b')
  {
    EdgesInRange(b);
    forall e | e in b'.graph.edges
      ensures WellUsed(b', e.from) && WellUsed(b', e.to)
    {
      assert WellUsed(b, e.from) && WellUsed(b, e.to);
      ResolveStays(b.graph.nodes, b'.graph.nodes, e.from);
      ResolveStays(b.graph.nodes, b'.graph.nodes, e.to);
    }
  }

  /** New references and constants that resolve, on top of old ones that still do. */
  lemma GrownIndexed(b: Builder, b': Builder)
    requires Indexed(b) && b.graph.nodes <= b'.graph.nodes
    requires forall n | |b.graph.nodes| <= n < |b'.graph.nodes| :: NodeValid(b'.graph.nodes[n])
    requires forall p | p in b'.refs ::
               (p in b.refs && b'.refs[p] == b.refs[p]) || Resolve(b'.graph.nodes, b'.refs[p]) == Some(PinRef(p))
    requires forall v | v in b'.consts ::
               || (v in b.consts && b'.consts[v] == b.consts[v])
               || Resolve(b'.graph.nodes, Interface(b'.consts[v], 0)) == Some(Value(v))
    ensures Indexed(b')
  {
    forall p | p in b'.refs
      ensures Resolve(b'.graph.nodes, b'.refs[p]) == Some(PinRef(p))
    {
      if p in b.refs && b'.refs[p] == b.refs[p] {
        ResolveStays(b.graph.nodes, b'.graph.nodes, b.refs[p]);
      }
    }
    forall v | v in b'.consts
      ensures Resolve(b'.graph.nodes, Interface(b'.consts[v], 0)) == Some(Value(v))
    {
      if v in b.consts && b'.consts[v] == b.consts[v] {
        ResolveStays(b.graph.nodes, b'.graph.nodes, Interface(b.consts[v], 0));
      }
    }
  }

  lemma ExternalValid(b: Builder, p: Pin)
    requires BuilderValid(b) && p !in b.refs && p.inst.None?
    ensures BuilderValid(AddExternal(b, p))
  {
    var b' := AddExternal(b, p);
    GrownIndexed(b, b');
    GrownValid(b, b');
  }

  lemma ConstantAdded(b: Builder, v: string, plain: seq<Connection>, inverted: seq<Connection>)
    requires BuilderValid(b) && Reads(b.graph, plain, inverted)
    ensures BuilderValid(EnsureConstant(b, v)) && Reads(EnsureConstant(b, v).graph, plain, inverted)
  {
    EdgesInRange(b);
    NodeAdded(b.graph, ConstantNode(v), plain, inverted);
    ConstantValid(b, v);
  }

  lemma ConstantValid(b: Builder, v: string)
    requires BuilderValid(b)
    ensures BuilderValid(EnsureConstant(b, v))
  {
    var b' := EnsureConstant(b, v);
    if v !in b.consts {
      GrownIndexed(b, b');
      GrownValid(b, b');
    }
  }

  lemma InstanceAdded(b: Builder, ports: seq<Pin>, plain: seq<Connection>, inverted: seq<Connection>)
    requires BuilderValid(b) && Reads(b.graph, plain, inverted)
    requires forall p | p in ports :: p !in b.refs && p.inst.Some?
    ensures BuilderValid(AddInstance(b, ports)) && Reads(AddInstance(b, ports).graph, plain, inverted)
  {
    EdgesInRange(b);
    NodeAdded(b.graph, InstanceNode(ports), plain, inverted);
    InstanceValid(b, ports);
  }

  lemma InstanceValid(b: Builder, ports: seq<Pin>)
    requires BuilderValid(b) && forall p | p in ports :: p !in b.refs && p.inst.Some?
    ensures BuilderValid(AddInstance(b, ports))
  {
    var b' := AddInstance(b, ports);
    GrownIndexed(b, b');
    GrownValid(b, b');
  }

  // ----- Adding edges -----

  lemma {:induction false} PlainEdgeKeepsInverted(nodes: seq<Node>, edges: seq<Edge>, e: Edge, count: nat)
    requires count <= |nodes| && !OfInverter(nodes, e.from) && !OfInverter(nodes, e.to)
    ensures InvertedConnections(nodes, edges + [e], count) == InvertedConnections(nodes, edges, count)
  {
    if count > 0 {
      PlainEdgeKeepsInverted(nodes, edges, e, count - 1);
      assert (edges + [e])[..|edges + [e]| - 1] == edges;
      assert IntoInverter(nodes, edges + [e], count - 1) == IntoInverter(nodes, edges, count - 1);
      assert FromInverter(nodes, edges + [e], count - 1) == FromInverter(nodes, edges, count - 1);
    }
  }

  /** A connection is read from the graph only if its edge is there. */
  lemma {:induction false} ReadHasEdge(b: Builder, edges: seq<Edge>, from: Referenced, to: Pin, c: Connection)
    requires Indexed(b) && forall e | e in edges :: WellUsed(b, e.from) && WellUsed(b, e.to)
    requires CreateConnection(Some(from), Some(PinRef(to)), false) == Success(c)
    requires DirectConnections(b.graph.nodes, edges).Success? && c in DirectConnections(b.graph.nodes, edges).value
    ensures UsedFor(b, from).Some? && UsedFor(b, PinRef(to)).Some?
    ensures Edge(UsedFor(b, from).value, UsedFor(b, PinRef(to)).value) in edges
  {
    var front, e := edges[..|edges| - 1], edges[|edges| - 1];
    assert e in edges && edges == front + [e];
    var rest := DirectConnections(b.graph.nodes, front).value;
    if c in rest {
      ReadHasEdge(b, front, from, to, c);
    } else {
      var r, s := Resolve(b.graph.nodes, e.from), Resolve(b.graph.nodes, e.to);
      assert CreateConnection(r, s, false) == Success(c);
      assert r == Some(from) && s == Some(PinRef(to));
    }
  }

  lemma {:induction false} EdgeHasRead(b: Builder, edges: seq<Edge>, e: Edge)
    requires e in edges && !OfInverter(b.graph.nodes, e.from) && !OfInverter(b.graph.nodes, e.to)
    requires DirectConnections(b.graph.nodes, edges).Success?
    ensures
      var c := CreateConnection(Resolve(b.graph.nodes, e.from), Resolve(b.graph.nodes, e.to), false);
      c.Success? && c.value in DirectConnections(b.graph.nodes, edges).value
  {
    var front, last := edges[..|edges| - 1], edges[|edges| - 1];
    assert edges == front + [last];
    if e != last {
      EdgeHasRead(b, front, e);
    }
  }

  /** Adding a plain edge adds the connection it stands for, unless it is there already. */
  lemma PlainEdgeAdded(b: Builder, from: Referenced, to: Pin, c: Connection,
                       plain: seq<Connection>, inverted: seq<Connection>)
    requires BuilderValid(b) && Reads(b.graph, plain, inverted)
    requires UsedFor(b, from).Some? && to in b.refs
    requires CreateConnection(Some(from), Some(PinRef(to)), false) == Success(c)
    ensures
      var e := Edge(UsedFor(b, from).value, b.refs[to]);
      var g := if e in b.graph.edges then b.graph else b.graph.(edges := b.graph.edges + [e]);
      && BuilderValid(b.(graph := g))
      && Reads(g, if c in plain then plain else plain + [c], inverted)
  {
    var e := Edge(UsedFor(b, from).value, b.refs[to]);
    var nodes, edges := b.graph.nodes, b.graph.edges;
    assert Resolve(nodes, e.from) == Some(from) && Resolve(nodes, e.to) == Some(PinRef(to));
    if c in plain {
      ReadHasEdge(b, edges, from, to, c);
    }
    if e in edges {
      EdgeHasRead(b, edges, e);
    } else {
      assert (edges + [e])[..|edges + [e]| - 1] == edges;
      PlainEdgeKeepsInverted(nodes, edges, e, |nodes|);
      EdgeValid(b, e);
    }
  }

  lemma {:induction false} InverterEdgesKeepOthers(nodes: seq<Node>, edges: seq<Edge>, e: Edge, f: Edge,
                                                   n: nat, count: nat)
    requires count <= n < |nodes| && e.to == Interface(n, 0) && f.from == Interface(n, 1)
    requires !OfInverter(nodes, e.from) && !OfInverter(nodes, f.to)
    ensures InvertedConnections(nodes, edges + [e] + [f], count) == InvertedConnections(nodes, edges, count)
  {
    if count > 0 {
      InverterEdgesKeepOthers(nodes, edges, e, f, n, count - 1);
      InverterEdges(nodes, edges, e, f, n);
    }
  }

  /** The two edges of inverter `n`, added last, are what is read for it, and only for it. */
  lemma InverterEdges(nodes: seq<Node>, edges: seq<Edge>, e: Edge, f: Edge, n: nat)
    requires n < |nodes| && e.to == Interface(n, 0) && f.from == Interface(n, 1)
    requires !OfInverter(nodes, e.from) && !OfInverter(nodes, f.to)
    ensures forall m: nat | m != n ::
              && IntoInverter(nodes, edges + [e] + [f], m) == IntoInverter(nodes, edges, m)
              && FromInverter(nodes, edges + [e] + [f], m) == FromInverter(nodes, edges, m)
    ensures nodes[n].InverterNode? ==>
              && IntoInverter(nodes, edges + [e] + [f], n) == Some(e.from)
              && FromInverter(nodes, edges + [e] + [f], n) == Some(f.to)
    ensures nodes[n].InverterNode? ==>
              DirectConnections(nodes, edges + [e] + [f]) == DirectConnections(nodes, edges)
  {
    var one, two := edges + [e], edges + [e] + [f];
    assert two[..|two| - 1] == one && one[..|one| - 1] == edges;
    assert two[|two| - 1] == f && one[|one| - 1] == e;
    forall m: nat
      ensures IntoInverter(nodes, two, m) == IntoInverter(nodes, one, m)
      ensures m != n ==> IntoInverter(nodes, one, m) == IntoInverter(nodes, edges, m)
      ensures m != n ==> FromInverter(nodes, two, m) == FromInverter(nodes, one, m)
      ensures FromInverter(nodes, one, m) == FromInverter(nodes, edges, m)
    {
    }
  }

  /** The graph with a new inverter node between two ports. */
  function WithInverter(b: Builder, driver: Pin, sink: Pin): Graph
    requires driver in b.refs && sink in b.refs
  {
    var n := |b.graph.nodes|;
    Graph(b.graph.nodes + [InverterNode],
          b.graph.edges + [Edge(b.refs[driver], Interface(n, 0))] + [Edge(Interface(n, 1), b.refs[sink])])
  }

  lemma InverterValid(b: Builder, driver: Pin, sink: Pin)
    requires BuilderValid(b) && driver in b.refs && sink in b.refs
    ensures BuilderValid(b.(graph := WithInverter(b, driver, sink)))
  {
    var b1 := b.(graph := b.graph.(nodes := b.graph.nodes + [InverterNode]));
    GrownIndexed(b, b1);
    GrownValid(b, b1);
    var n := |b.graph.nodes|;
    EdgeValid(b1, Edge(b.refs[driver], Interface(n, 0)));
    var b2 := b1.(graph := b1.graph.(edges := b1.graph.edges + [Edge(b.refs[driver], Interface(n, 0))]));
    EdgeValid(b2, Edge(Interface(n, 1), b.refs[sink]));
  }

  lemma EdgeValid(b: Builder, e: Edge)
    requires BuilderValid(b) && WellUsed(b, e.from) && WellUsed(b, e.to)
    ensures BuilderValid(b.(graph := b.graph.(edges := b.graph.edges + [e])))
  {
    var b' := b.(graph := b.graph.(edges := b.graph.edges + [e]));
    forall x | x in b'.graph.edges
      ensures WellUsed(b', x.from) && WellUsed(b', x.to)
    {
      assert x in b.graph.edges || x == e;
      assert WellUsed(b, x.from) && WellUsed(b, x.to);
    }
  }

  /** It reads back as one inverted connection. */
  lemma InverterReads(b: Builder, driver: Pin, sink: Pin, plain: seq<Connection>, inverted: seq<Connection>)
    requires BuilderValid(b) && Reads(b.graph, plain, inverted)
    requires driver in b.refs && sink in b.refs
    ensures Reads(WithInverter(b, driver, sink), plain,
                  inverted + [PortConnection(Ref(driver, []), Ref(sink, []), true)])
  {
    EdgesInRange(b);
    var n, edges := |b.graph.nodes|, b.graph.edges;
    var nodes := b.graph.nodes + [InverterNode];
    var e, f := Edge(b.refs[driver], Interface(n, 0)), Edge(Interface(n, 1), b.refs[sink]);
    NodeKeepsDirect(b.graph.nodes, InverterNode, edges);
    NodeKeepsInverted(b.graph.nodes, InverterNode, edges, n);
    assert Resolve(nodes, b.refs[driver]) == Some(PinRef(driver));
    assert Resolve(nodes, b.refs[sink]) == Some(PinRef(sink));
    InverterEdges(nodes, edges, e, f, n);
    InverterEdgesKeepOthers(nodes, edges, e, f, n, n);
    var all := edges + [e] + [f];
    assert InvertedConnections(nodes, all, n) == Success(inverted);
    assert InverterConnection(nodes, IntoInverter(nodes, all, n), FromInverter(nodes, all, n)) ==
           Success(PortConnection(Ref(driver, []), Ref(sink, []), true));
    assert |nodes| == n + 1;
  }

  // ----- Adding connections -----

  lemma ExternalEnsured(b: Builder, p: Pin, plain: seq<Connection>, inverted: seq<Connection>)
    requires BuilderValid(b) && Reads(b.graph, plain, inverted) && (p.inst.Some? ==> p in b.refs)
    ensures
      var b' := EnsureExternal(b, p);
      && BuilderValid(b') && Reads(b'.graph, plain, inverted)
      && p in b'.refs && b'.consts == b.consts
      && (forall q | q in b.refs :: q in b'.refs)
  {
    if p !in b.refs {
      ExternalAdded(b, p, plain, inverted);
    }
  }

  /** Interfaces of drivers put out, interfaces of sinks take in, seen from inside the design. */
  lemma DirectionsOfPins(b: Builder, p: Pin)
    requires Indexed(b) && p in b.refs
    ensures IsDriver(p) ==> DirectionOf(b.graph.nodes, b.refs[p]).Out?
    ensures IsSink(p) ==> DirectionOf(b.graph.nodes, b.refs[p]).In?
  {
    var i := b.refs[p];
    assert Resolve(b.graph.nodes, i) == Some(PinRef(p));
    assert NodeValid(b.graph.nodes[i.node]);
  }

  lemma ConstantConnectionAdded(b: Builder, v: string, target: Ref, plain: seq<Connection>, inverted: seq<Connection>)
    requires BuilderValid(b) && Reads(b.graph, plain, inverted)
    requires (target.pin.inst.Some? ==> target.pin in b.refs)
    ensures
      var c := ConstantConnection(v, target);
      var b' := AddConnection(b, c);
      && BuilderValid(b')
      && Reads(b'.graph, if Canonical(c) in plain then plain else plain + [Canonical(c)], inverted)
  {
    ConstantAdded(b, v, plain, inverted);
    var b1 := EnsureConstant(b, v);
    ExternalEnsured(b1, target.pin, plain, inverted);
    ConstantEdgeAdded(EnsureExternal(b1, target.pin), v, target.pin, plain, inverted);
  }

  lemma ConstantsDrive(nodes: seq<Node>, i: Interface, v: string)
    requires Resolve(nodes, i) == Some(Value(v))
    ensures DirectionOf(nodes, i).Out?
  {
  }

  lemma ConstantEdgeAdded(b: Builder, v: string, target: Pin, plain: seq<Connection>, inverted: seq<Connection>)
    requires BuilderValid(b) && Reads(b.graph, plain, inverted) && v in b.consts && target in b.refs
    ensures
      var c := ConstantConnection(v, Ref(target, []));
      var b' := b.(graph := Connect(b.graph, Interface(b.consts[v], 0), b.refs[target]));
      BuilderValid(b') && Reads(b'.graph, if c in plain then plain else plain + [c], inverted)
  {
    var from := Interface(b.consts[v], 0);
    assert Resolve(b.graph.nodes, from) == Some(Value(v)) && UsedFor(b, Value(v)) == Some(from);
    ConstantsDrive(b.graph.nodes, from, v);
    PlainEdgeAdded(b, Value(v), target, ConstantConnection(v, Ref(target, [])), plain, inverted);
  }

  lemma PlainConnectionAdded(b: Builder, source: Ref, other: Ref, plain: seq<Connection>, inverted: seq<Connection>)
    requires BuilderValid(b) && Reads(b.graph, plain, inverted)
    requires Registered(b, PortConnection(source, other, false)) && WellDirected(PortConnection(source, other, false))
    ensures
      var c := PortConnection(source, other, false);
      var b' := AddConnection(b, c);
      && BuilderValid(b')
      && Reads(b'.graph, if Canonical(c) in plain then plain else plain + [Canonical(c)], inverted)
  {
    ExternalEnsured(b, source.pin, plain, inverted);
    var b1 := EnsureExternal(b, source.pin);
    ExternalEnsured(b1, other.pin, plain, inverted);
    var b2 := EnsureExternal(b1, other.pin);
    DirectionsOfPins(b2, source.pin);
    DirectionsOfPins(b2, other.pin);
    var c := Canonical(PortConnection(source, other, false));
    PlainEdgeAdded(b2, PinRef(c.source.pin), c.other.pin, c, plain, inverted);
  }

  lemma InvertedConnectionAdded(b: Builder, source: Ref, other: Ref, plain: seq<Connection>, inverted: seq<Connection>)
    requires BuilderValid(b) && Reads(b.graph, plain, inverted)
    requires Registered(b, PortConnection(source, other, true)) && WellDirected(PortConnection(source, other, true))
    ensures
      var c := PortConnection(source, other, true);
      var b' := AddConnection(b, c);
      BuilderValid(b') && Reads(b'.graph, plain, inverted + [Canonical(c)])
  {
    ExternalEnsured(b, source.pin, plain, inverted);
    var b1 := EnsureExternal(b, source.pin);
    ExternalEnsured(b1, other.pin, plain, inverted);
    var b2 := EnsureExternal(b1, other.pin);
    DirectionsOfPins(b2, source.pin);
    DirectionsOfPins(b2, other.pin);
    var c := Canonical(PortConnection(source, other, true));
    var driver, sink := c.source.pin, c.other.pin;
    InverterValid(b2, driver, sink);
    InverterReads(b2, driver, sink, plain, inverted);
    InverterEdgesAreNew(b2, driver, sink);
  }

  /** The edges of a new inverter cannot exist yet. */
  lemma InverterEdgesAreNew(b: Builder, driver: Pin, sink: Pin)
    requires BuilderValid(b) && driver in b.refs && sink in b.refs && IsDriver(driver) && IsSink(sink)
    ensures
      var n := |b.graph.nodes|;
      var g := b.graph.(nodes := b.graph.nodes + [InverterNode]);
      && DirectionOf(g.nodes, b.refs[driver]).Out? && DirectionOf(g.nodes, b.refs[sink]).In?
      && Connect(Connect(g, b.refs[driver], Interface(n, 0)), Interface(n, 1), b.refs[sink]) ==
         WithInverter(b, driver, sink)
  {
    EdgesInRange(b);
    DirectionsOfPins(b, driver);
    DirectionsOfPins(b, sink);
    assert Resolve(b.graph.nodes, b.refs[driver]) == Some(PinRef(driver));
    assert Resolve(b.graph.nodes, b.refs[sink]) == Some(PinRef(sink));
  }

  lemma {:induction false} AddConnectionsReads(b: Builder, conns: seq<Connection>)
    requires BuilderValid(b) && Reads(b.graph, [], []) && AllRegistered(b, conns)
    requires forall c | c in conns :: WellDirected(c)
    ensures BuilderValid(AddConnections(b, conns))
    ensures Reads(AddConnections(b, conns).graph, PlainOf(conns), InvertedOf(conns))
  {
    if conns != [] {
      var front, c := conns[..|conns| - 1], conns[|conns| - 1];
      assert c in conns && forall d | d in front :: d in conns;
      AddConnectionsReads(b, front);
      var b' := AddConnections(b, front);
      var plain, inverted := PlainOf(front), InvertedOf(front);
      assert inverted + [] == inverted;
      match c
      case ConstantConnection(v, target) =>
        ConstantConnectionAdded(b', v, target, plain, inverted);
      case PortConnection(source, other, invert) =>
        if invert {
          InvertedConnectionAdded(b', source, other, plain, inverted);
        } else {
          PlainConnectionAdded(b', source, other, plain, inverted);
        }
    }
  }

  // ----- Whole designs -----

  function AddInstances(b: Builder, insts: seq<seq<Pin>>): Builder {
    if insts == [] then b else AddInstance(AddInstances(b, insts[..|insts| - 1]), insts[|insts| - 1])
  }

  function AddExternals(b: Builder, ports: seq<Pin>): Builder {
    if ports == [] then b else AddExternal(AddExternals(b, ports[..|ports| - 1]), ports[|ports| - 1])
  }

  /** A flat design: the pins of its instances, its own ports, and its connections. */
  datatype Design = Design(instances: seq<seq<Pin>>, ports: seq<Pin>, connections: seq<Connection>)

  ghost predicate Distinct<T>(xs: seq<T>) {
    forall i, j | 0 <= i < j < |xs| :: xs[i] != xs[j]
  }

  /** Instances share no pins; own ports are listed once; connections are well directed and use known pins. */
  ghost predicate WellFormed(d: Design) {
    && (forall i, j, p | 0 <= i < j < |d.instances| && p in d.instances[i] :: p !in d.instances[j])
    && (forall ports, p | ports in d.instances && p in ports :: p.inst.Some?)
    && (forall p | p in d.ports :: p.inst.None?)
    && Distinct(d.ports)
    && (forall c | c in d.connections :: WellDirected(c) && PinsKnown(d, c))
  }

  ghost predicate PinKnown(d: Design, p: Pin) {
    p.inst.Some? ==> exists ports | ports in d.instances :: p in ports
  }

  ghost predicate PinsKnown(d: Design, c: Connection) {
    match c
    case ConstantConnection(_, target) => PinKnown(d, target.pin)
    case PortConnection(source, other, _) => PinKnown(d, source.pin) && PinKnown(d, other.pin)
  }

  function Components(d: Design): Builder {
    AddExternals(AddInstances(EMPTY, d.instances), d.ports)
  }

  lemma {:induction false} InstancesAdded(insts: seq<seq<Pin>>)
    requires forall i, j, p | 0 <= i < j < |insts| && p in insts[i] :: p !in insts[j]
    requires forall ports, p | ports in insts && p in ports :: p.inst.Some?
    ensures
      var b := AddInstances(EMPTY, insts);
      && BuilderValid(b) && Reads(b.graph, [], []) && b.consts == map[]
      && (forall p :: p in b.refs <==> exists ports | ports in insts :: p in ports)
  {
    if insts != [] {
      var front, last := insts[..|insts| - 1], insts[|insts| - 1];
      assert insts == front + [last];
      InstancesAdded(front);
      var b := AddInstances(EMPTY, front);
      forall p | p in last
        ensures p !in b.refs
      {
        forall ports | ports in front
          ensures p !in ports
        {
          var i :| 0 <= i < |front| && front[i] == ports;
          assert insts[i] == ports && insts[|insts| - 1] == last;
        }
      }
      InstanceAdded(b, last, [], []);
    }
  }

  lemma {:induction false} ExternalsAdded(b: Builder, ports: seq<Pin>)
    requires BuilderValid(b) && Reads(b.graph, [], []) && Distinct(ports)
    requires forall p | p in ports :: p !in b.refs && p.inst.None?
    ensures
      var b' := AddExternals(b, ports);
      && BuilderValid(b') && Reads(b'.graph, [], [])
      && (forall p :: p in b'.refs <==> p in b.refs || p in ports)
  {
    if ports != [] {
      var front, last := ports[..|ports| - 1], ports[|ports| - 1];
      assert ports == front + [last] && last in ports;
      assert forall p | p in front :: p in ports;
      ExternalsAdded(b, front);
      ExternalAdded(AddExternals(b, front), last, [], []);
    }
  }

  lemma ComponentsAdded(d: Design)
    requires WellFormed(d)
    ensures
      var b := Components(d);
      BuilderValid(b) && Reads(b.graph, [], []) && AllRegistered(b, d.connections)
  {
    InstancesAdded(d.instances);
    var b := AddInstances(EMPTY, d.instances);
    forall p | p in d.ports
      ensures p !in b.refs
    {
      assert forall ports | ports in d.instances :: p !in ports;
    }
    ExternalsAdded(b, d.ports);
    forall c | c in d.connections
      ensures Registered(Components(d), c)
    {
      assert PinsKnown(d, c);
    }
  }

  function Represent(d: Design): Graph
    requires AllRegistered(Components(d), d.connections)
  {
    AddConnections(Components(d), d.connections).graph
  }

  /**
   Representing a flat design and parsing the dataflow gives back its plain connections, once
   each, and every inverted one, unsliced and from driver to sink.
   */
  lemma RoundTrip(d: Design)
    requires WellFormed(d)
    ensures AllRegistered(Components(d), d.connections)
    ensures Parse(Represent(d)) == Success(PlainOf(d.connections) + InvertedOf(d.connections))
  {
    ComponentsAdded(d);
    AddConnectionsReads(Components(d), d.connections);
  }

  lemma {:induction false} OfConnections(conns: seq<Connection>, x: Connection)
    ensures x in PlainOf(conns) || x in InvertedOf(conns) <==> exists c | c in conns :: Canonical(c) == x
    ensures x in PlainOf(conns) ==> !IsInverted(x)
    ensures x in InvertedOf(conns) ==> IsInverted(x)
  {
    if conns != [] {
      var front, last := conns[..|conns| - 1], conns[|conns| - 1];
      assert conns == front + [last];
      OfConnections(front, x);
      assert IsInverted(Canonical(last)) == IsInverted(last);
      if c :| c in front && Canonical(c) == x {
        assert c in conns;
      }
    }
  }

  /** As sets: the same connections, up to direction and slices. */
  lemma RoundTripKeepsSet(d: Design, x: Connection)
    requires WellFormed(d)
    ensures AllRegistered(Components(d), d.connections) && Parse(Represent(d)).Success?
    ensures x in Parse(Represent(d)).value <==> exists c | c in d.connections :: Canonical(c) == x
  {
    RoundTrip(d);
    OfConnections(d.connections, x);
  }

  // ----- External ports come back -----

  /** The external ports that the frontend creates, by the exposed interface of each external node. */
  function ExternalPorts(nodes: seq<Node>): seq<Pin> {
    if nodes == [] then []
    else
      ExternalPorts(nodes[..|nodes| - 1])
      + match nodes[|nodes| - 1]
        case ExternalNode(name, exposed) => [Pin(None, name, ExternalDirection(exposed))]
        case _ => []
  }

  predicate Uses(c: Connection, p: Pin) {
    match c
    case ConstantConnection(_, target) => p == target.pin
    case PortConnection(source, other, _) => p == source.pin || p == other.pin
  }

  /** The external nodes are those of `ports` and then of further pins used in `conns`, each once. */
  ghost predicate Exposes(b: Builder, ports: seq<Pin>, conns: seq<Connection>) {
    var all := ExternalPorts(b.graph.nodes);
    && ports <= all && Distinct(all)
    && (forall p | p in all :: p in b.refs && (p in ports || exists c | c in conns :: Uses(c, p)))
    && (forall p | p in b.refs && p.inst.None? :: p in all)
  }

  lemma OneMoreNode(nodes: seq<Node>, node: Node)
    ensures ExternalPorts(nodes + [node]) ==
            ExternalPorts(nodes)
            + if node.ExternalNode? then [Pin(None, node.name, ExternalDirection(node.exposed))] else []
  {
    assert (nodes + [node])[..|nodes|] == nodes;
  }

  lemma ExternalAppended(b: Builder, p: Pin)
    requires p.inst.None?
    ensures ExternalPorts(AddExternal(b, p).graph.nodes) == ExternalPorts(b.graph.nodes) + [p]
  {
    OneMoreNode(b.graph.nodes, ExternalNode(p.port, ExposedIndex(p.dir)));
    assert Pin(None, p.port, p.dir) == p;
  }

  lemma EnsuredExposes(b: Builder, p: Pin, ports: seq<Pin>, conns: seq<Connection>)
    requires Exposes(b, ports, conns) && exists c | c in conns :: Uses(c, p)
    ensures Exposes(EnsureExternal(b, p), ports, conns)
  {
    if p !in b.refs && p.inst.None? {
      ExternalAppended(b, p);
    }
  }

  lemma OtherNodeExposes(b: Builder, b': Builder, node: Node, ports: seq<Pin>, conns: seq<Connection>)
    requires Exposes(b, ports, conns) && !node.ExternalNode?
    requires b'.graph.nodes == b.graph.nodes + [node] && b'.refs == b.refs
    ensures Exposes(b', ports, conns)
  {
    OneMoreNode(b.graph.nodes, node);
  }

  lemma SameNodesExpose(b: Builder, b': Builder, ports: seq<Pin>, conns: seq<Connection>)
    requires Exposes(b, ports, conns) && b'.graph.nodes == b.graph.nodes && b'.refs == b.refs
    ensures Exposes(b', ports, conns)
  {
  }

  lemma ConstantExposes(b: Builder, value: string, target: Ref, ports: seq<Pin>, conns: seq<Connection>)
    requires Exposes(b, ports, conns) && Registered(b, ConstantConnection(value, target))
    requires ConstantConnection(value, target) in conns
    ensures Exposes(AddConnection(b, ConstantConnection(value, target)), ports, conns)
  {
    var c, b1 := ConstantConnection(value, target), EnsureConstant(b, value);
    if value !in b.consts {
      OtherNodeExposes(b, b1, ConstantNode(value), ports, conns);
    }
    assert Uses(c, target.pin);
    EnsuredExposes(b1, target.pin, ports, conns);
    SameNodesExpose(EnsureExternal(b1, target.pin), AddConnection(b, c), ports, conns);
  }

  lemma PortExposes(b: Builder, source: Ref, other: Ref, invert: bool, ports: seq<Pin>, conns: seq<Connection>)
    requires Exposes(b, ports, conns) && Registered(b, PortConnection(source, other, invert))
    requires PortConnection(source, other, invert) in conns
    ensures Exposes(AddConnection(b, PortConnection(source, other, invert)), ports, conns)
  {
    var c := PortConnection(source, other, invert);
    assert Uses(c, source.pin) && Uses(c, other.pin);
    EnsuredExposes(b, source.pin, ports, conns);
    var b1 := EnsureExternal(b, source.pin);
    EnsuredExposes(b1, other.pin, ports, conns);
    var b2 := EnsureExternal(b1, other.pin);
    if invert {
      OtherNodeExposes(b2, AddConnection(b, c), InverterNode, ports, conns);
    } else {
      SameNodesExpose(b2, AddConnection(b, c), ports, conns);
    }
  }

  lemma ConnectionExposes(b: Builder, c: Connection, ports: seq<Pin>, conns: seq<Connection>)
    requires Exposes(b, ports, conns) && Registered(b, c) && c in conns
    ensures Exposes(AddConnection(b, c), ports, conns)
  {
    match c
    case ConstantConnection(value, target) => ConstantExposes(b, value, target, ports, conns);
    case PortConnection(source, other, invert) => PortExposes(b, source, other, invert, ports, conns);
  }

  lemma {:induction false} ConnectionsExpose(b: Builder, added: seq<Connection>, ports: seq<Pin>,
                                             conns: seq<Connection>)
    requires Exposes(b, ports, conns) && AllRegistered(b, added) && forall c | c in added :: c in conns
    ensures Exposes(AddConnections(b, added), ports, conns)
  {
    if added != [] {
      var front, c := added[..|added| - 1], added[|added| - 1];
      assert c in added;
      ConnectionsExpose(b, front, ports, conns);
      ConnectionExposes(AddConnections(b, front), c, ports, conns);
    }
  }

  lemma {:induction false} InstancesExposeNothing(insts: seq<seq<Pin>>)
    ensures ExternalPorts(AddInstances(EMPTY, insts).graph.nodes) == []
  {
    if insts != [] {
      var front := insts[..|insts| - 1];
      InstancesExposeNothing(front);
      OneMoreNode(AddInstances(EMPTY, front).graph.nodes, InstanceNode(insts[|insts| - 1]));
    }
  }

  lemma {:induction false} ExternalsListed(b: Builder, ports: seq<Pin>)
    requires ExternalPorts(b.graph.nodes) == [] && forall p | p in ports :: p.inst.None?
    ensures ExternalPorts(AddExternals(b, ports).graph.nodes) == ports
  {
    if ports != [] {
      var front, p := ports[..|ports| - 1], ports[|ports| - 1];
      assert p in ports && front + [p] == ports;
      ExternalsListed(b, front);
      ExternalAppended(AddExternals(b, front), p);
    }
  }

  lemma ComponentsExpose(d: Design)
    requires WellFormed(d)
    ensures Exposes(Components(d), d.ports, d.connections)
  {
    InstancesAdded(d.instances);
    var b := AddInstances(EMPTY, d.instances);
    forall p | p in d.ports
      ensures p !in b.refs
    {
      assert forall ports | ports in d.instances :: p !in ports;
    }
    ExternalsAdded(b, d.ports);
    InstancesExposeNothing(d.instances);
    ExternalsListed(b, d.ports);
  }

  /**
   The ports of the module come back in order, with their names and directions; any other external
   port that comes back is one that a connection uses.
   */
  lemma ExternalPortsComeBack(d: Design)
    requires WellFormed(d)
    ensures AllRegistered(Components(d), d.connections)
    ensures
      var all := ExternalPorts(Represent(d).nodes);
      && d.ports <= all && Distinct(all)
      && forall p | p in all :: p in d.ports || exists c | c in d.connections :: Uses(c, p)
  {
    ComponentsAdded(d);
    ComponentsExpose(d);
    ConnectionsExpose(Components(d), d.connections, d.ports, d.connections);
  }

  // ----- Instances come back -----

  lemma {:induction false} InstancesListed(insts: seq<seq<Pin>>)
    ensures AddInstances(EMPTY, insts).graph.nodes ==
            seq(|insts|, i requires 0 <= i < |insts| => InstanceNode(insts[i]))
  {
    if insts != [] {
      InstancesListed(insts[..|insts| - 1]);
    }
  }

  lemma {:induction false} ExternalsAppend(b: Builder, ports: seq<Pin>)
    ensures b.graph.nodes <= AddExternals(b, ports).graph.nodes
  {
    if ports != [] {
      ExternalsAppend(b, ports[..|ports| - 1]);
    }
  }

  lemma {:induction false} ConnectionsAppend(b: Builder, conns: seq<Connection>)
    requires AllRegistered(b, conns)
    ensures b.graph.nodes <= AddConnections(b, conns).graph.nodes
  {
    if conns != [] {
      var front, c := conns[..|conns| - 1], conns[|conns| - 1];
      assert c in conns;
      ConnectionsAppend(b, front);
      OneAppends(AddConnections(b, front), c);
    }
  }

  lemma OneAppends(b: Builder, c: Connection)
    requires Registered(b, c)
    ensures b.graph.nodes <= AddConnection(b, c).graph.nodes
  {
    match c
    case ConstantConnection(value, target) =>
      var b1 := EnsureConstant(b, value);
      EnsuringAppends(b, target.pin, value);
      EnsuringAppends(b1, target.pin, value);
    case PortConnection(source, other, _) =>
      var b1 := EnsureExternal(b, source.pin);
      EnsuringAppends(b, source.pin, "");
      EnsuringAppends(b1, other.pin, "");
  }

  lemma EnsuringAppends(b: Builder, p: Pin, value: string)
    ensures b.graph.nodes <= EnsureExternal(b, p).graph.nodes
    ensures b.graph.nodes <= EnsureConstant(b, value).graph.nodes
  {
  }

  /** The first nodes are the instances, each with its ports as interfaces in order. */
  lemma InstancesComeBack(d: Design, i: nat)
    requires AllRegistered(Components(d), d.connections) && i < |d.instances|
    ensures i < |Represent(d).nodes| && Represent(d).nodes[i] == InstanceNode(d.instances[i])
  {
    var b := AddInstances(EMPTY, d.instances);
    InstancesListed(d.instances);
    ExternalsAppend(b, d.ports);
    ConnectionsAppend(Components(d), d.connections);
    assert b.graph.nodes[i] == InstanceNode(d.instances[i]);
  }
}
