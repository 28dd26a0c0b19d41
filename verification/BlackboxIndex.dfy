/**
 The blackbox that stands for procedural logic (`_bb_get_port`, `_route_through_blackbox`,
 `_strip_blackbox_only_concats`): its port list, the index of that list by name, and the
 connections to its ports stay in agreement.
 */
module BlackboxIndex {
  import opened Wrappers

  datatype Direction = In | Out | InOut

  /** A port of the blackbox module. The index and the port list share these objects. */
  class BbPort {
    const name: string
    var direction: Direction

    constructor (name: string, direction: Direction)
      ensures this.name == name && this.direction == direction
    {
      this.name, this.direction := name, direction;
    }
  }

  datatype Kind = Select | Concat | Control | Other

  datatype Instance = Instance(id: nat, name: string, kind: Kind)

  /** What a connection is attached to. */
  datatype End = OfBlackbox(bb: BbPort) | OfInstance(inst: Instance, port: string) | OfTop(port: string)

  datatype Source = Constant(text: string) | Driven(end: End)

  datatype Connection = PortConnection(source: End, target: End) | ConstantConnection(value: string, to: End)

  // ----- Stripping, on values -----

  predicate Touches(c: Connection, inst: Instance) {
    match c
    case PortConnection(s, t) => (s.OfInstance? && s.inst == inst) || (t.OfInstance? && t.inst == inst)
    case ConstantConnection(_, t) => t.OfInstance? && t.inst == inst
  }

  /** `c` joins `inst` to something other than the blackbox. */
  predicate LeavesBlackbox(c: Connection, inst: Instance) {
    match c
    case PortConnection(s, t) =>
      || (s.OfInstance? && s.inst == inst && !t.OfBlackbox?)
      || (t.OfInstance? && t.inst == inst && !s.OfBlackbox?)
    case ConstantConnection(_, t) => t.OfInstance? && t.inst == inst
  }

  /** A concatenation with connections, all of them to the blackbox. */
  predicate BlackboxOnly(conns: seq<Connection>, inst: Instance) {
    && inst.kind.Concat?
    && (exists c | c in conns :: Touches(c, inst))
    && (forall c | c in conns :: !LeavesBlackbox(c, inst))
  }

  function Removed(conns: seq<Connection>, components: seq<Instance>): set<Instance> {
    set inst | inst in components && BlackboxOnly(conns, inst)
  }

  predicate Survives(c: Connection, removed: set<Instance>) {
    match c
    case PortConnection(s, t) => !(s.OfInstance? && s.inst in removed) && !(t.OfInstance? && t.inst in removed)
    case ConstantConnection(_, t) => !(t.OfInstance? && t.inst in removed)
  }

  function Surviving(conns: seq<Connection>, removed: set<Instance>): seq<Connection> {
    if conns == [] then []
    else
      Surviving(conns[..|conns| - 1], removed)
      + if Survives(conns[|conns| - 1], removed) then [conns[|conns| - 1]] else []
  }

  function Remaining(components: seq<Instance>, removed: set<Instance>): seq<Instance> {
    if components == [] then []
    else
      Remaining(components[..|components| - 1], removed)
      + if components[|components| - 1] in removed then [] else [components[|components| - 1]]
  }

  /** Ports at either end of a port connection. */
  function UsedBy(c: Connection): set<BbPort> {
    match c
    case PortConnection(s, t) => (if s.OfBlackbox? then {s.bb} else {}) + (if t.OfBlackbox? then {t.bb} else {})
    case ConstantConnection(_, _) => {}
  }

  function Used(conns: seq<Connection>): set<BbPort> {
    if conns == [] then {} else Used(conns[..|conns| - 1]) + UsedBy(conns[|conns| - 1])
  }

  function KeptPorts(ports: seq<BbPort>, used: set<BbPort>): seq<BbPort> {
    if ports == [] then []
    else KeptPorts(ports[..|ports| - 1], used) + if ports[|ports| - 1] in used then [ports[|ports| - 1]] else []
  }

  /** Exactly the connections that touch no removed instance survive. */
  lemma {:induction false} SurvivingExactly(conns: seq<Connection>, removed: set<Instance>)
    ensures forall c :: c in Surviving(conns, removed) <==> c in conns && Survives(c, removed)
    ensures forall c, inst | c in Surviving(conns, removed) && inst in removed :: !Touches(c, inst)
  {
    if conns != [] {
      SurvivingExactly(conns[..|conns| - 1], removed);
      assert conns == conns[..|conns| - 1] + [conns[|conns| - 1]];
    }
  }

  /** They survive in order: each comes after exactly the surviving connections that preceded it. */
  lemma {:induction false} SurvivingInOrder(conns: seq<Connection>, removed: set<Instance>, i: nat)
    requires i < |conns| && Survives(conns[i], removed)
    ensures
      var j := |Surviving(conns[..i], removed)|;
      j < |Surviving(conns, removed)| && Surviving(conns, removed)[j] == conns[i]
  {
    var front := conns[..|conns| - 1];
    if i < |front| {
      assert front[..i] == conns[..i];
      SurvivingInOrder(front, removed, i);
    } else {
      assert conns[..i] == front;
    }
  }

  lemma {:induction false} RemainingExactly(components: seq<Instance>, removed: set<Instance>)
    ensures forall i :: i in Remaining(components, removed) <==> i in components && i !in removed
  {
    if components != [] {
      RemainingExactly(components[..|components| - 1], removed);
      assert components == components[..|components| - 1] + [components[|components| - 1]];
    }
  }

  lemma {:induction false} RemainingInOrder(components: seq<Instance>, removed: set<Instance>, i: nat)
    requires i < |components| && components[i] !in removed
    ensures
      var j := |Remaining(components[..i], removed)|;
      j < |Remaining(components, removed)| && Remaining(components, removed)[j] == components[i]
  {
    var front := components[..|components| - 1];
    if i < |front| {
      assert front[..i] == components[..i];
      RemainingInOrder(front, removed, i);
    } else {
      assert components[..i] == front;
    }
  }

  lemma {:induction false} KeptInOrder(ports: seq<BbPort>, used: set<BbPort>, i: nat)
    requires i < |ports| && ports[i] in used
    ensures
      var j := |KeptPorts(ports[..i], used)|;
      j < |KeptPorts(ports, used)| && KeptPorts(ports, used)[j] == ports[i]
  {
    var front := ports[..|ports| - 1];
    if i < |front| {
      assert front[..i] == ports[..i];
      KeptInOrder(front, used, i);
    } else {
      assert ports[..i] == front;
    }
  }

  lemma {:induction false} UsedExactly(conns: seq<Connection>)
    ensures forall p {:trigger p in Used(conns)} :: p in Used(conns) <==> exists c | c in conns :: p in UsedBy(c)
  {
    if conns != [] {
      var front, last := conns[..|conns| - 1], conns[|conns| - 1];
      UsedExactly(front);
      assert conns == front + [last];
      forall p
        ensures p in Used(conns) <==> exists c | c in conns :: p in UsedBy(c)
      {
        if c :| c in front && p in UsedBy(c) {
          assert c in conns;
        }
        if p in UsedBy(last) {
          assert last in conns;
        }
      }
    }
  }

  lemma {:induction false} KeptExactly(ports: seq<BbPort>, used: set<BbPort>)
    ensures forall p :: p in KeptPorts(ports, used) <==> p in ports && p in used
  {
    if ports != [] {
      KeptExactly(ports[..|ports| - 1], used);
      assert ports == ports[..|ports| - 1] + [ports[|ports| - 1]];
    }
  }

  ghost predicate DistinctNames(ports: seq<BbPort>) {
    forall p, q | p in ports && q in ports && p.name == q.name :: p == q
  }

  /** The index has exactly the listed ports, each under its name. */
  ghost predicate Indexes(index: map<string, BbPort>, ports: seq<BbPort>) {
    && (forall p | p in ports :: p.name in index && index[p.name] == p)
    && (forall n | n in index :: index[n] in ports && index[n].name == n)
  }

  ghost predicate ListedEnd(e: End, ports: seq<BbPort>) {
    e.OfBlackbox? ==> e.bb in ports
  }

  /** Blackbox ports of a connection are listed; constants never drive the blackbox. */
  ghost predicate Listed(c: Connection, ports: seq<BbPort>) {
    match c
    case PortConnection(s, t) => ListedEnd(s, ports) && ListedEnd(t, ports)
    case ConstantConnection(_, t) => !t.OfBlackbox?
  }

  ghost predicate AllListed(conns: seq<Connection>, ports: seq<BbPort>) {
    forall c | c in conns :: Listed(c, ports)
  }

  ghost predicate Once(ports: seq<BbPort>) {
    forall i, j | 0 <= i < j < |ports| :: ports[i] != ports[j]
  }

  lemma {:induction false} KeptOnce(ports: seq<BbPort>, used: set<BbPort>)
    requires Once(ports)
    ensures Once(KeptPorts(ports, used))
  {
    if ports != [] {
      var front, last := ports[..|ports| - 1], ports[|ports| - 1];
      KeptOnce(front, used);
      KeptExactly(front, used);
    }
  }

  /** Connections that survive refer only to ports that are kept. */
  lemma SurvivorsListed(conns: seq<Connection>, removed: set<Instance>, ports: seq<BbPort>)
    requires AllListed(conns, ports)
    ensures
      var left := Surviving(conns, removed);
      AllListed(left, KeptPorts(ports, Used(left)))
  {
    var left := Surviving(conns, removed);
    SurvivingExactly(conns, removed);
    UsedExactly(left);
    KeptExactly(ports, Used(left));
    forall c | c in left
      ensures Listed(c, KeptPorts(ports, Used(left)))
    {
      assert Listed(c, ports);
      assert forall p | p in UsedBy(c) :: p in Used(left);
      match c
      case PortConnection(s, t) =>
        assert s.OfBlackbox? ==> s.bb in UsedBy(c);
        assert t.OfBlackbox? ==> t.bb in UsedBy(c);
      case ConstantConnection(_, _) =>
    }
  }

  // ----- Names and directions -----

  /** The name of the blackbox port that serves one end of a connection (`_bb_port_name_from_ref`). */
  function PortName(e: End): string {
    match e
    case OfTop(port) => "top." + port
    case OfInstance(inst, port) => if inst.kind.Select? then port else inst.name + "." + port
    case OfBlackbox(p) => "(control)." + p.name
  }

  predicate NoDots(name: string) {
    '.' !in name
  }

  /**
   Ends whose names are kept apart: instances have names without dots, other than `top` and
   `(control)`, and what belongs to select modules has ports without dots.
   */
  predicate Plain(e: End) {
    match e
    case OfTop(_) => true
    case OfBlackbox(_) => true
    case OfInstance(inst, port) =>
      if inst.kind.Select? then NoDots(port) else NoDots(inst.name) && inst.name !in {"top", "(control)"}
  }

  lemma {:induction false} FirstDot(a: string, b: string, c: string, d: string)
    requires NoDots(a) && NoDots(c) && a + "." + b == c + "." + d
    ensures a == c && b == d
  {
    var s := a + "." + b;
    assert s[|a|] == '.' && s[|c|] == '.';
    assert forall i | 0 <= i < |a| :: s[i] == a[i] && a[i] in a;
    assert forall i | 0 <= i < |c| :: s[i] == c[i] && c[i] in c;
    assert |a| == |c|;
    assert a == s[..|a|] && c == s[..|c|] && b == s[|a| + 1..] && d == s[|c| + 1..];
  }

  /** What comes before the first dot of the name of a plain end, and what comes after it. */
  function NameParts(e: End): Option<(string, string)> {
    match e
    case OfTop(port) => Some(("top", port))
    case OfInstance(inst, port) => if inst.kind.Select? then None else Some((inst.name, port))
    case OfBlackbox(p) => Some(("(control)", p.name))
  }

  lemma NamePartsIff(e: End, f: End)
    requires Plain(e) && Plain(f)
    ensures PortName(e) == PortName(f) <==>
            NameParts(e) == NameParts(f) && (NameParts(e).None? ==> e.port == f.port)
  {
    match (NameParts(e), NameParts(f))
    case (Some((a, b)), Some((c, d))) =>
      assert PortName(e) == a + "." + b && PortName(f) == c + "." + d;
      if PortName(e) == PortName(f) {
        FirstDot(a, b, c, d);
      }
    case (Some((a, b)), None) => HasDot(PortName(e), a, b);
    case (None, Some((c, d))) => HasDot(PortName(f), c, d);
    case (None, None) =>
  }

  lemma HasDot(name: string, a: string, b: string)
    requires name == a + "." + b
    ensures !NoDots(name)
  {
    assert name[|a|] == '.';
  }

  /**
   The names of two plain ends are equal exactly for the same port of the module, of instances of the
   same name, or of the blackbox, and for select modules' ports of the same name.
   */
  lemma PortNamesEqualIff(e: End, f: End)
    requires Plain(e) && Plain(f)
    ensures PortName(e) == PortName(f) <==>
            match (e, f)
            case (OfTop(p), OfTop(q)) => p == q
            case (OfBlackbox(p), OfBlackbox(q)) => p.name == q.name
            case (OfInstance(i, p), OfInstance(j, q)) =>
              p == q && i.kind.Select? == j.kind.Select? && (i.kind.Select? || i.name == j.name)
            case _ => false
  {
    NamePartsIff(e, f);
  }

  ghost predicate AllPlain(ends: seq<End>) {
    forall e | e in ends :: Plain(e)
  }

  /**
   Of different instances with an end at a port of the same name, both or neither are select modules
   only if neither is and their names differ.
   */
  ghost predicate Apart(ends: seq<End>) {
    forall e, f | e in ends && f in ends && e.OfInstance? && f.OfInstance? && e.inst != f.inst && e.port == f.port ::
      e.inst.kind.Select? == f.inst.kind.Select? ==> !e.inst.kind.Select? && e.inst.name != f.inst.name
  }

  ghost predicate InputsApart(inputs: seq<Connection>, ends: seq<End>)
    requires Routed(inputs, ends)
  {
    forall i, j | 0 <= i < |ends| && 0 <= j < |ends| ::
      inputs[i].target.bb == inputs[j].target.bb <==> ends[i] == ends[j]
  }

  /** Two routed sources share a blackbox input exactly if they are the same end, if and only if the ends are apart. */
  lemma RoutedApartIff(inputs: seq<Connection>, ends: seq<End>, ports: seq<BbPort>)
    requires Routed(inputs, ends) && DistinctNames(ports) && AllPlain(ends)
    requires forall c | c in inputs :: Listed(c, ports)
    ensures InputsApart(inputs, ends) <==> Apart(ends)
  {
    forall i, j | 0 <= i < |ends| && 0 <= j < |ends|
      ensures inputs[i].target.bb == inputs[j].target.bb <==> PortName(ends[i]) == PortName(ends[j])
    {
      assert Listed(inputs[i], ports) && Listed(inputs[j], ports);
    }
    forall i, j | 0 <= i < |ends| && 0 <= j < |ends|
      ensures PortName(ends[i]) == PortName(ends[j]) && ends[i] != ends[j] ==> !Apart(ends)
    {
      assert Listed(inputs[i], ports) && Listed(inputs[j], ports);
      assert ends[i] in ends && ends[j] in ends;
      PortNamesEqualIff(ends[i], ends[j]);
    }
    if !Apart(ends) {
      var e, f :| e in ends && f in ends && e.OfInstance? && f.OfInstance? && e.inst != f.inst && e.port == f.port
        && e.inst.kind.Select? == f.inst.kind.Select? && (e.inst.kind.Select? || e.inst.name == f.inst.name);
      var i :| 0 <= i < |ends| && ends[i] == e;
      var j :| 0 <= j < |ends| && ends[j] == f;
      PortNamesEqualIff(e, f);
    }
  }

  ghost predicate ToldApart(inputs: seq<Connection>, ends: seq<End>)
    requires Routed(inputs, ends)
  {
    AllPlain(ends) ==> (InputsApart(inputs, ends) <==> Apart(ends))
  }

  lemma RoutedToldApart(before: seq<Connection>, inputs: seq<Connection>, last: seq<Connection>, ends: seq<End>,
                        ports: seq<BbPort>)
    requires AllAttached(before + inputs + last, ports) && Routed(inputs, ends) && DistinctNames(ports)
    ensures ToldApart(inputs, ends)
  {
    RoutedListed(before, inputs, last, ports);
    if AllPlain(ends) {
      RoutedApartIff(inputs, ends, ports);
    }
  }

  lemma RoutedListed(before: seq<Connection>, inputs: seq<Connection>, last: seq<Connection>, ports: seq<BbPort>)
    requires AllAttached(before + inputs + last, ports)
    ensures forall c | c in inputs :: Listed(c, ports)
  {
    assert forall c | c in inputs :: c in before + inputs + last;
  }

  /** Where that fails: a dot in the name of an instance, an instance called `top`, or ports of two selects. */
  lemma NamesCollide()
    ensures
      var u, v := Instance(0, "u", Other), Instance(1, "u.v", Other);
      PortName(OfInstance(u, "v.a")) == PortName(OfInstance(v, "a")) == "u.v.a"
    ensures PortName(OfInstance(Instance(0, "top", Other), "a")) == PortName(OfTop("a"))
    ensures PortName(OfInstance(Instance(0, "s", Select), "a")) == PortName(OfInstance(Instance(1, "t", Select), "a"))
  {
  }

  /** The blackbox ports at the ends of `c` are listed and have a direction that allows it. */
  ghost predicate Attached(c: Connection, ports: seq<BbPort>)
    reads ports
  {
    && Listed(c, ports)
    && (c.PortConnection? && c.source.OfBlackbox? ==> c.source.bb.direction != In)
    && (c.PortConnection? && c.target.OfBlackbox? ==> c.target.bb.direction != Out)
  }

  function PortSources(sources: seq<Source>): seq<End> {
    if sources == [] then []
    else PortSources(sources[..|sources| - 1])
         + if sources[|sources| - 1].Driven? then [sources[|sources| - 1].end] else []
  }

  function ConstantSources(sources: seq<Source>): seq<string> {
    if sources == [] then []
    else ConstantSources(sources[..|sources| - 1])
         + if sources[|sources| - 1].Constant? then [sources[|sources| - 1].text] else []
  }

  lemma {:induction false} PortSourcesExactly(sources: seq<Source>)
    ensures forall i | 0 <= i < |PortSources(sources)| :: Driven(PortSources(sources)[i]) in sources
    ensures forall i | 0 <= i < |sources| && sources[i].Driven? :: sources[i].end in PortSources(sources)
  {
    if sources != [] {
      PortSourcesExactly(sources[..|sources| - 1]);
      assert sources == sources[..|sources| - 1] + [sources[|sources| - 1]];
    }
  }

  /** The ends of the driven sources, one by one and in order. */
  lemma {:induction false} PortSourcesSplit(front: seq<Source>, more: seq<Source>)
    ensures PortSources(front + more) == PortSources(front) + PortSources(more)
  {
    if more == [] {
      assert front + more == front;
    } else {
      var last := |more| - 1;
      PortSourcesSplit(front, more[..last]);
      assert (front + more)[..|front| + last] == front + more[..last];
    }
  }

  /** The texts of the constant sources, one by one and in order. */
  lemma {:induction false} ConstantSourcesSplit(front: seq<Source>, more: seq<Source>)
    ensures ConstantSources(front + more) == ConstantSources(front) + ConstantSources(more)
  {
    if more == [] {
      assert front + more == front;
    } else {
      var last := |more| - 1;
      ConstantSourcesSplit(front, more[..last]);
      assert (front + more)[..|front| + last] == front + more[..last];
    }
  }

  lemma OneSource(s: Source)
    ensures PortSources([s]) == match s case Driven(e) => [e] case Constant(_) => []
    ensures ConstantSources([s]) == match s case Driven(_) => [] case Constant(t) => [t]
  {
    assert [s][..0] == [];
  }

  /** `conns[i]` carries `sources[i]` into the blackbox port named after it. */
  ghost predicate Routed(conns: seq<Connection>, sources: seq<End>) {
    && |conns| == |sources|
    && forall i | 0 <= i < |conns| ::
         && conns[i].PortConnection? && conns[i].source == sources[i] && conns[i].target.OfBlackbox?
         && conns[i].target.bb.name == PortName(sources[i])
  }

  lemma RoutedMore(conns: seq<Connection>, sources: seq<End>, i: nat, input: BbPort)
    requires i < |sources| && Routed(conns, sources[..i]) && input.name == PortName(sources[i])
    ensures Routed(conns + [PortConnection(sources[i], OfBlackbox(input))], sources[..i + 1])
  {
  }

  /** One connection, from the blackbox port named after `sink`. */
  ghost predicate FromBlackbox(conns: seq<Connection>, sink: End) {
    && |conns| == 1 && conns[0].PortConnection? && conns[0].target == sink
    && conns[0].source.OfBlackbox? && conns[0].source.bb.name == PortName(sink)
  }

  /** `now` is `was` with ports added at the end. */
  ghost predicate Extended(was: seq<BbPort>, now: seq<BbPort>) {
    was <= now
  }

  /** Blackbox ports among `ends` are listed and may be read from. */
  ghost predicate Sourced(ends: seq<End>, ports: seq<BbPort>)
    reads ports
  {
    forall e | e in ends :: ListedEnd(e, ports) && (e.OfBlackbox? ==> e.bb.direction != In)
  }

  ghost predicate AllAttached(conns: seq<Connection>, ports: seq<BbPort>)
    reads ports
  {
    forall c | c in conns :: Attached(c, ports)
  }

  /** Every port is listed once and no two share a name. */
  ghost predicate WellListed(ports: seq<BbPort>) {
    DistinctNames(ports) && Once(ports)
  }

  /** Stripping keeps the port list and the connections in agreement. */
  lemma StripKeepsAgreement(conns: seq<Connection>, removed: set<Instance>, ports: seq<BbPort>)
    requires WellListed(ports) && AllAttached(conns, ports)
    ensures
      var left := Surviving(conns, removed);
      WellListed(KeptPorts(ports, Used(left))) && AllAttached(left, KeptPorts(ports, Used(left)))
  {
    var left := Surviving(conns, removed);
    SurvivorsListed(conns, removed, ports);
    SurvivingExactly(conns, removed);
    var kept := KeptPorts(ports, Used(left));
    assert WellListed(kept) by {
      KeptExactly(ports, Used(left));
      KeptOnce(ports, Used(left));
    }
    forall c | c in left
      ensures Attached(c, kept)
    {
      assert c in conns && Attached(c, ports) && Listed(c, kept);
    }
  }

  // ----- The state of the frontend -----

  class Frontend {
    var modPorts: seq<BbPort>
    var bbPorts: map<string, BbPort>
    var connections: seq<Connection>
    var components: seq<Instance>
    var hasBlackbox: bool

    ghost predicate Valid()
      reads this, modPorts
    {
      WellListed(modPorts) && Indexes(bbPorts, modPorts) && AllAttached(connections, modPorts)
    }

    constructor ()
      ensures Valid() && modPorts == [] && connections == [] && components == [] && !hasBlackbox
    {
      modPorts, bbPorts, connections, components, hasBlackbox := [], map[], [], [], false;
    }

    method GetPort(name: string, direction: Direction) returns (p: BbPort)
      requires Valid()
      modifies this`modPorts, this`bbPorts, modPorts
      ensures Valid()
      ensures p in modPorts && p.name == name
      ensures if name in old(bbPorts)
              then p == old(bbPorts)[name] && modPorts == old(modPorts)
                   && p.direction == (if old(p.direction) == direction then direction else InOut)
              else fresh(p) && modPorts == old(modPorts) + [p] && p.direction == direction
      ensures forall q | q in old(modPorts) && q != p :: q.direction == old(q.direction)
      ensures forall q | q in modPorts :: q in old(modPorts) || fresh(q)
    {
      if name in bbPorts {
        p := bbPorts[name];
        if p.direction != direction {
          p.direction := InOut;
        }
        return;
      }
      p := new BbPort(name, direction);
      modPorts := modPorts + [p];
      bbPorts := bbPorts[name := p];
    }

    /** Connects `e` to the blackbox input named after it. */
    method RouteInput(e: End) returns (input: BbPort)
      requires Valid() && ListedEnd(e, modPorts) && (e.OfBlackbox? ==> e.bb.direction != In)
      modifies this`modPorts, this`bbPorts, this`connections, modPorts
      ensures Valid() && Extended(old(modPorts), modPorts)
      ensures forall q | q in modPorts :: q in old(modPorts) || fresh(q)
      ensures forall q | q in old(modPorts) :: q.direction == old(q.direction) || q.direction == InOut
      ensures input.name == PortName(e) && connections == old(connections) + [PortConnection(e, OfBlackbox(input))]
    {
      input := GetPort(PortName(e), In);
      connections := connections + [PortConnection(e, OfBlackbox(input))];
    }

    method RouteInputs(ports: seq<End>) returns (ghost added: seq<Connection>)
      requires Valid() && Sourced(ports, modPorts)
      modifies this`modPorts, this`bbPorts, this`connections, modPorts
      ensures Valid() && Extended(old(modPorts), modPorts)
      ensures forall q | q in modPorts :: q in old(modPorts) || fresh(q)
      ensures forall q | q in old(modPorts) :: q.direction == old(q.direction) || q.direction == InOut
      ensures connections == old(connections) + added && Routed(added, ports)
    {
      added := [];
      for i := 0 to |ports|
        invariant Valid() && Extended(old(modPorts), modPorts)
        invariant forall q | q in modPorts :: q in old(modPorts) || fresh(q)
        invariant forall q | q in old(modPorts) :: q.direction == old(q.direction) || q.direction == InOut
        invariant connections == old(connections) + added && Routed(added, ports[..i])
      {
        assert ports[i] in ports;
        assert forall k | 0 <= k < |modPorts| :: modPorts[k] in modPorts;
        var input := RouteInput(ports[i]);
        RoutedMore(added, ports, i, input);
        added := added + [PortConnection(ports[i], OfBlackbox(input))];
      }
      assert ports[..|ports|] == ports;
    }

    /** The blackbox output named after `sink`; what could be read from before still can. */
    method OutputPort(sink: End, ghost ends: seq<End>) returns (out: BbPort)
      requires Valid() && Sourced(ends, modPorts)
      modifies this`modPorts, this`bbPorts, modPorts
      ensures Valid() && Extended(old(modPorts), modPorts) && Sourced(ends, modPorts)
      ensures forall q | q in modPorts :: q in old(modPorts) || fresh(q)
      ensures out in modPorts && out.direction != In && out.name == PortName(sink)
    {
      out := GetPort(PortName(sink), Out);
    }

    /** Routes `ports` through the blackbox to `sink`. */
    method RoutePorts(ports: seq<End>, sink: End, symbolic: bool)
      returns (ghost inputs: seq<Connection>, ghost last: seq<Connection>)
      requires Valid() && !sink.OfBlackbox?
      requires Sourced(ports, modPorts)
      modifies this`modPorts, this`bbPorts, this`connections, modPorts
      ensures Valid() && Extended(old(modPorts), modPorts)
      ensures forall q | q in modPorts :: q in old(modPorts) || fresh(q)
      ensures connections == old(connections) + inputs + last && Routed(inputs, ports)
      ensures if sink.OfTop? && symbolic then last == [] else FromBlackbox(last, sink)
    {
      last := [];
      var out := OutputPort(sink, ports);
      assert forall k | 0 <= k < |modPorts| :: modPorts[k] in modPorts;
      inputs := RouteInputs(ports);
      if sink.OfTop? && symbolic {
        return;
      }
      AddConnection(PortConnection(OfBlackbox(out), sink));
      last := [PortConnection(OfBlackbox(out), sink)];
    }

    /**
     Routes the ports among `sources` through the blackbox to `sink`; a lone constant is connected
     directly. `symbolic` tells that the sink has symbolic dimensions.
     */
    method RouteThroughBlackbox(sources: seq<Source>, sink: End, symbolic: bool)
      returns (ghost inputs: seq<Connection>, ghost last: seq<Connection>)
      requires Valid() && !sink.OfBlackbox?
      requires forall s | s in sources && s.Driven? ::
                 ListedEnd(s.end, modPorts) && (s.end.OfBlackbox? ==> s.end.bb.direction != In)
      modifies this`modPorts, this`bbPorts, this`connections, this`components, this`hasBlackbox, modPorts
      ensures Valid() && Extended(old(modPorts), modPorts)
      ensures forall q | q in modPorts :: q in old(modPorts) || fresh(q)
      ensures connections == old(connections) + inputs + last && Routed(inputs, PortSources(sources))
      ensures hasBlackbox == (old(hasBlackbox) || PortSources(sources) != [])
      ensures components == old(components)
                            + if hasBlackbox == old(hasBlackbox) then [] else [ControlInstance(|old(components)|)]
      ensures ToldApart(inputs, PortSources(sources))
      ensures PortSources(sources) == [] ==>
                && modPorts == old(modPorts)
                && last == if |ConstantSources(sources)| == 1
                           then [ConstantConnection(ConstantSources(sources)[0], sink)] else []
      ensures PortSources(sources) != [] ==>
                if sink.OfTop? && symbolic then last == [] else FromBlackbox(last, sink)
    {
      inputs, last := [], [];
      var ports, constants := PortSources(sources), ConstantSources(sources);
      if ports == [] {
        if |constants| == 1 {
          connections := connections + [ConstantConnection(constants[0], sink)];
          last := [ConstantConnection(constants[0], sink)];
        }
        return;
      }
      PortSourcesExactly(sources);
      if !hasBlackbox {
        hasBlackbox := true;
        components := components + [ControlInstance(|components|)];
      }
      assert Sourced(ports, modPorts) by {
        forall e | e in ports
          ensures ListedEnd(e, modPorts) && (e.OfBlackbox? ==> e.bb.direction != In)
        {
          assert Driven(e) in sources;
        }
      }
      inputs, last := RoutePorts(ports, sink, symbolic);
      RoutedToldApart(old(connections), inputs, last, ports, modPorts);
    }

    /** Any other connection of the frontend: it attaches the blackbox only at listed ports. */
    method AddConnection(c: Connection)
      requires Valid() && Attached(c, modPorts)
      modifies this`connections
      ensures Valid() && connections == old(connections) + [c]
    {
      connections := connections + [c];
    }

    /** For each concatenation: has it a connection, and do all of them lead to the blackbox. */
    method ConcatStates(concats: set<Instance>) returns (state: map<Instance, (bool, bool)>)
      ensures state.Keys == concats
      ensures forall inst | inst in concats :: state[inst] == StateOf(connections, inst)
    {
      state := map inst | inst in concats :: (false, true);
      for i := 0 to |connections|
        invariant state.Keys == concats
        invariant forall inst | inst in concats :: state[inst] == StateOf(connections[..i], inst)
      {
        assert connections[..i + 1][..i] == connections[..i];
        state := NextStates(state, connections[i]);
      }
      assert connections[..|connections|] == connections;
    }

    method RemovableConcats() returns (removed: set<Instance>)
      ensures removed == Removed(connections, components)
    {
      var concats := set inst | inst in components && inst.kind.Concat?;
      if concats == {} {
        assert forall inst | inst in components && inst.kind.Concat? :: inst in concats;
        return {};
      }
      var state := ConcatStates(concats);
      removed := set inst | inst in state && state[inst].0 && state[inst].1;
      forall inst | inst in concats {
        StateMeaning(connections, inst);
      }
    }

    /**
     Removes the concatenations that only the blackbox uses, their connections, and then the blackbox
     ports that no connection uses any more.
     */
    method StripBlackboxOnlyConcats()
      requires Valid()
      modifies this`modPorts, this`bbPorts, this`connections, this`components
      ensures Valid()
      ensures var removed := if old(hasBlackbox) then Removed(old(connections), old(components)) else {};
              && connections == Surviving(old(connections), removed)
              && components == Remaining(old(components), removed)
              && modPorts == if removed == {} then old(modPorts) else KeptPorts(old(modPorts), Used(connections))
    {
      KeepingAll(connections, components);
      if !hasBlackbox {
        return;
      }
      var removed := RemovableConcats();
      if removed == {} {
        return;
      }
      Strip(removed);
    }

    method Strip(removed: set<Instance>)
      requires Valid()
      modifies this`modPorts, this`bbPorts, this`connections, this`components
      ensures Valid()
      ensures connections == Surviving(old(connections), removed)
      ensures components == Remaining(old(components), removed)
      ensures modPorts == KeptPorts(old(modPorts), Used(connections))
    {
      StripKeepsAgreement(connections, removed, modPorts);
      connections := Surviving(connections, removed);
      components := Remaining(components, removed);
      modPorts := KeptPorts(modPorts, Used(connections));
      Reindex();
    }

    /** Rebuilds the index from the port list. */
    method Reindex()
      requires WellListed(modPorts)
      modifies this`bbPorts
      ensures Indexes(bbPorts, modPorts)
    {
      bbPorts := map[];
      for i := 0 to |modPorts|
        invariant Indexes(bbPorts, modPorts[..i])
      {
        assert modPorts[..i + 1] == modPorts[..i] + [modPorts[i]];
        assert forall p | p in modPorts[..i] :: p in modPorts && p != modPorts[i];
        bbPorts := bbPorts[modPorts[i].name := modPorts[i]];
      }
      assert modPorts[..|modPorts|] == modPorts;
    }
  }

  /** The flags after one more connection; a connection can have a concatenation at both ends. */
  method NextStates(state: map<Instance, (bool, bool)>, c: Connection) returns (next: map<Instance, (bool, bool)>)
    ensures next.Keys == state.Keys
    ensures forall inst | inst in state ::
              next[inst] == (state[inst].0 || Touches(c, inst), state[inst].1 && !LeavesBlackbox(c, inst))
  {
    next := state;
    match c {
      case PortConnection(s, t) =>
        if s.OfInstance? && s.inst in state {
          next := next[s.inst := (true, next[s.inst].1 && t.OfBlackbox?)];
        }
        if t.OfInstance? && t.inst in state {
          next := next[t.inst := (true, next[t.inst].1 && s.OfBlackbox?)];
        }
      case ConstantConnection(_, t) =>
        if t.OfInstance? && t.inst in state {
          next := next[t.inst := (true, false)];
        }
    }
  }

  /**
   What a strip leaves, in terms of the connections alone: no connection of a removed concatenation,
   no unused port, every port that a connection still uses, and nothing else lost.
   */
  lemma StripLeaves(conns: seq<Connection>, components: seq<Instance>, ports: seq<BbPort>)
    requires AllListed(conns, ports)
    ensures
      var removed := Removed(conns, components);
      var left := Surviving(conns, removed);
      var kept := KeptPorts(ports, Used(left));
      && (forall c :: c in left <==>
            c in conns && forall inst | inst in components && Touches(c, inst) :: !BlackboxOnly(conns, inst))
      && (forall p :: p in kept <==> p in ports && exists c | c in left :: p in UsedBy(c))
      && (forall inst | inst in components :: inst in Remaining(components, removed) <==> !BlackboxOnly(conns, inst))
      && AllListed(left, kept)
  {
    var removed := Removed(conns, components);
    var left := Surviving(conns, removed);
    SurvivingExactly(conns, removed);
    RemainingExactly(components, removed);
    UsedExactly(left);
    KeptExactly(ports, Used(left));
    SurvivorsListed(conns, removed, ports);
    forall c
      ensures c in left <==>
              c in conns && forall inst | inst in components && Touches(c, inst) :: !BlackboxOnly(conns, inst)
    {
      if c in conns && c !in left {
        assert !Survives(c, removed);
        assert exists inst :: inst in removed && Touches(c, inst);
      }
    }
  }

  /** The ports that a connection is attached to. */
  function Ends(c: Connection): seq<End> {
    match c
    case PortConnection(s, t) => [s, t]
    case ConstantConnection(_, t) => [t]
  }

  predicate BelongsTo(e: End, inst: Instance) {
    e.OfInstance? && e.inst == inst
  }

  /** Exactly the connected concatenations go with nothing but the blackbox at the other ends. */
  lemma RemovedIff(conns: seq<Connection>, components: seq<Instance>, inst: Instance)
    ensures inst in Removed(conns, components) <==>
            && inst in components && inst.kind == Concat
            && (exists c | c in conns :: exists e | e in Ends(c) :: BelongsTo(e, inst))
            && (forall c, i | c in conns && 0 <= i < |Ends(c)| && BelongsTo(Ends(c)[i], inst) ::
                  |Ends(c)| == 2 && Ends(c)[1 - i].OfBlackbox?)
  {
    forall c | c in conns
      ensures Touches(c, inst) <==> exists e | e in Ends(c) :: BelongsTo(e, inst)
      ensures !LeavesBlackbox(c, inst) <==>
              forall i | 0 <= i < |Ends(c)| && BelongsTo(Ends(c)[i], inst) ::
                |Ends(c)| == 2 && Ends(c)[1 - i].OfBlackbox?
    {
      TouchesEnds(c, inst);
    }
  }

  lemma TouchesEnds(c: Connection, inst: Instance)
    ensures Touches(c, inst) <==> exists e | e in Ends(c) :: BelongsTo(e, inst)
    ensures !LeavesBlackbox(c, inst) <==>
            forall i | 0 <= i < |Ends(c)| && BelongsTo(Ends(c)[i], inst) ::
              |Ends(c)| == 2 && Ends(c)[1 - i].OfBlackbox?
  {
    match c
    case PortConnection(s, t) =>
      assert Ends(c)[0] == s && Ends(c)[1] == t && s in Ends(c) && t in Ends(c);
    case ConstantConnection(_, t) =>
      assert Ends(c)[0] == t && t in Ends(c);
  }

  /** Exactly the connections go that a removed concatenation has an end of. */
  lemma SurvivesIff(conns: seq<Connection>, removed: set<Instance>, c: Connection)
    ensures c in Surviving(conns, removed) <==>
            c in conns && forall e, inst | e in Ends(c) && inst in removed :: !BelongsTo(e, inst)
  {
    SurvivingExactly(conns, removed);
    match c
    case PortConnection(s, t) => assert s in Ends(c) && t in Ends(c);
    case ConstantConnection(_, t) => assert t in Ends(c);
  }

  /** Exactly the ports stay that are at an end of a port connection. */
  lemma KeptIff(conns: seq<Connection>, ports: seq<BbPort>, p: BbPort)
    ensures p in KeptPorts(ports, Used(conns)) <==>
            p in ports && exists c | c in conns :: c.PortConnection? && OfBlackbox(p) in Ends(c)
  {
    KeptExactly(ports, Used(conns));
    UsedExactly(conns);
    assert forall c :: p in UsedBy(c) <==> c.PortConnection? && OfBlackbox(p) in Ends(c);
  }

  function ControlInstance(id: nat): Instance {
    Instance(id, "(control)", Control)
  }

  /** The flags of one concatenation: has it a connection, do all of them lead to the blackbox. */
  function StateOf(conns: seq<Connection>, inst: Instance): (bool, bool) {
    if conns == [] then (false, true)
    else
      var before, c := StateOf(conns[..|conns| - 1], inst), conns[|conns| - 1];
      (before.0 || Touches(c, inst), before.1 && !LeavesBlackbox(c, inst))
  }

  lemma {:induction false} StateMeaning(conns: seq<Connection>, inst: Instance)
    ensures StateOf(conns, inst).0 <==> exists c | c in conns :: Touches(c, inst)
    ensures StateOf(conns, inst).1 <==> forall c | c in conns :: !LeavesBlackbox(c, inst)
  {
    if conns != [] {
      var front, last := conns[..|conns| - 1], conns[|conns| - 1];
      StateMeaning(front, inst);
      assert conns == front + [last];
      assert last in conns;
      assert forall c | c in front :: c in conns;
    }
  }

  lemma {:induction false} KeepingAll(conns: seq<Connection>, components: seq<Instance>)
    ensures Surviving(conns, {}) == conns && Remaining(components, {}) == components
  {
    if conns != [] {
      KeepingAll(conns[..|conns| - 1], components);
    } else if components != [] {
      KeepingAll(conns, components[..|components| - 1]);
    }
  }
}
