/**
 Clock and reset domains: their assignment to instances by the YAML frontend
 (`_parse_clock_reset_assignments`, `_parse_clocks_resets`) and their lowering to port connections
 with the clock-domain-crossing check (`Design.lower_domains`, `check_intf_cdc`).
 */
module DomainLowering {
  import opened Wrappers

  datatype Polarity = ActiveLow | ActiveHigh

  /** Identity in the source is object identity: the `id`. */
  datatype Clock = Clock(id: nat, name: string, port: string)
  datatype Reset = Reset(id: nat, name: string, port: string, polarity: Polarity, synchronousTo: Option<Clock>)

  datatype Pin = Pin(inst: Option<string>, port: string)

  datatype ClockDomain = ClockDomain(id: nat, name: string, source: Pin)
  datatype ResetDomain = ResetDomain(id: nat, name: string, source: Pin, polarity: Polarity,
                                     synchronousTo: Option<ClockDomain>)

  datatype Module = Module(clocks: seq<Clock>, resets: seq<Reset>)

  type Clocks = map<Clock, ClockDomain>
  type Resets = map<Reset, ResetDomain>

  /** An instance with the domains its clocks and resets are assigned to. */
  datatype Assigned = Assigned(name: string, mod: Module, clocks: Clocks, resets: Resets)

  datatype Error =
    | UnknownClock | UnknownReset | UnknownClockDomain | UnknownResetDomain
    | NoClockDomain | NoResetDomain | AsynchronousDomain | OtherClockDomain
    | CrossesDomains | ClockOfExternal | UnassignedInterfaceClock

  datatype Outcome = Done | Failed(error: Error)

  class ModuleInstance {
    const name: string
    const mod: Module
    var clocks: Clocks
    var resets: Resets

    constructor (name: string, mod: Module)
      ensures this.name == name && this.mod == mod && clocks == map[] && resets == map[]
    {
      this.name, this.mod, clocks, resets := name, mod, map[], map[];
    }

    function Value(): Assigned
      reads this
    {
      Assigned(name, mod, clocks, resets)
    }
  }

  /** One side of an interface connection, with the clock of the interface if known. */
  datatype Side = Side(inst: Option<ModuleInstance>, clock: Option<Clock>)

  datatype Connection =
    | PortConnection(source: Pin, target: Pin, invert: bool)
    | InterfaceConnection(from: Side, to: Side)

  // ----- What lowering an instance means -----

  ghost predicate ResetLowerable(inst: Assigned, r: Reset) {
    && r in inst.resets
    && (r.synchronousTo.Some? ==>
          && inst.resets[r].synchronousTo.Some?
          && r.synchronousTo.value in inst.clocks
          && inst.clocks[r.synchronousTo.value] == inst.resets[r].synchronousTo.value)
  }

  /** Every clock and reset has a domain, and synchronous resets are in a domain of their own clock. */
  ghost predicate Lowerable(inst: Assigned) {
    && (forall c | c in inst.mod.clocks :: c in inst.clocks)
    && (forall r | r in inst.mod.resets :: ResetLowerable(inst, r))
  }

  /** Every clock and reset has some domain, and so has the clock of every synchronous reset. */
  ghost predicate HasDomains(inst: Assigned) {
    && (forall c | c in inst.mod.clocks :: c in inst.clocks)
    && (forall r | r in inst.mod.resets ::
          r in inst.resets && (r.synchronousTo.Some? ==> r.synchronousTo.value in inst.clocks))
  }

  ghost predicate AllHaveDomains(insts: seq<Assigned>) {
    forall inst | inst in insts :: HasDomains(inst)
  }

  /** The lookups of lowering that raise when a domain is missing. */
  predicate MissingDomain(r: Outcome) {
    r == Failed(NoClockDomain) || r == Failed(NoResetDomain)
  }

  function ClockConnection(inst: Assigned, c: Clock): Connection
    requires c in inst.clocks
  {
    PortConnection(inst.clocks[c].source, Pin(Some(inst.name), c.port), false)
  }

  function ResetConnection(inst: Assigned, r: Reset): Connection
    requires r in inst.resets
  {
    PortConnection(inst.resets[r].source, Pin(Some(inst.name), r.port), inst.resets[r].polarity != r.polarity)
  }

  function ClockConnections(inst: Assigned, clocks: seq<Clock>): (cs: seq<Connection>)
    requires forall c | c in clocks :: c in inst.clocks
    ensures |cs| == |clocks| && forall i | 0 <= i < |clocks| :: cs[i] == ClockConnection(inst, clocks[i])
  {
    seq(|clocks|, i requires 0 <= i < |clocks| => ClockConnection(inst, clocks[i]))
  }

  function ResetConnections(inst: Assigned, resets: seq<Reset>): (cs: seq<Connection>)
    requires forall r | r in resets :: r in inst.resets
    ensures |cs| == |resets| && forall i | 0 <= i < |resets| :: cs[i] == ResetConnection(inst, resets[i])
  {
    seq(|resets|, i requires 0 <= i < |resets| => ResetConnection(inst, resets[i]))
  }

  ghost function NewConnections(inst: Assigned): seq<Connection>
    requires Lowerable(inst)
  {
    ClockConnections(inst, inst.mod.clocks) + ResetConnections(inst, inst.mod.resets)
  }

  ghost predicate AllLowerable(insts: seq<Assigned>) {
    forall inst | inst in insts :: Lowerable(inst)
  }

  ghost function AllNewConnections(insts: seq<Assigned>): seq<Connection>
    requires AllLowerable(insts)
  {
    if insts == [] then []
    else
      assert insts[|insts| - 1] in insts;
      AllNewConnections(insts[..|insts| - 1]) + NewConnections(insts[|insts| - 1])
  }

  /** The clock and reset pins of all instances, in order. */
  function DomainPins(insts: seq<Assigned>): seq<Pin> {
    if insts == [] then []
    else
      var inst := insts[|insts| - 1];
      DomainPins(insts[..|insts| - 1])
      + seq(|inst.mod.clocks|, i requires 0 <= i < |inst.mod.clocks| => Pin(Some(inst.name), inst.mod.clocks[i].port))
      + seq(|inst.mod.resets|, i requires 0 <= i < |inst.mod.resets| => Pin(Some(inst.name), inst.mod.resets[i].port))
  }

  /** A reset line with this level is asserted. */
  predicate IsAsserted(p: Polarity, level: bool) {
    level == p.ActiveHigh?
  }

  // ----- What lowering achieves -----

  /** Exactly one new connection for each clock and reset pin, in order. */
  lemma {:induction false} OneConnectionPerPin(insts: seq<Assigned>)
    requires AllLowerable(insts)
    ensures |AllNewConnections(insts)| == |DomainPins(insts)|
    ensures forall i | 0 <= i < |DomainPins(insts)| ::
              AllNewConnections(insts)[i].PortConnection? && AllNewConnections(insts)[i].target == DomainPins(insts)[i]
  {
    if insts != [] {
      var front, inst := insts[..|insts| - 1], insts[|insts| - 1];
      assert inst in insts;
      OneConnectionPerPin(front);
      var cs, pins := AllNewConnections(insts), DomainPins(insts);
      forall i | 0 <= i < |pins|
        ensures cs[i].PortConnection? && cs[i].target == pins[i]
      {
        var j := i - |DomainPins(front)|;
        if j >= 0 {
          assert cs[i] == NewConnections(inst)[j];
        } else {
          assert cs[i] == AllNewConnections(front)[i];
        }
      }
    }
  }

  /** The level that a connection delivers. */
  function Delivered(c: Connection, level: bool): bool
    requires c.PortConnection?
  {
    if c.invert then !level else level
  }

  /** A lowered reset pin is asserted exactly when its domain is; a synchronous one shares its clock's domain. */
  lemma ResetFollowsDomain(inst: Assigned, r: Reset, level: bool)
    requires Lowerable(inst) && r in inst.mod.resets
    ensures ResetConnection(inst, r) in NewConnections(inst)
    ensures IsAsserted(r.polarity, Delivered(ResetConnection(inst, r), level)) <==>
            IsAsserted(inst.resets[r].polarity, level)
    ensures r.synchronousTo.Some? && r.synchronousTo.value in inst.mod.clocks ==>
              && inst.resets[r].synchronousTo == Some(inst.clocks[r.synchronousTo.value])
              && PortConnection(inst.resets[r].synchronousTo.value.source,
                                Pin(Some(inst.name), r.synchronousTo.value.port), false) in NewConnections(inst)
  {
    var resets, clocks := inst.mod.resets, inst.mod.clocks;
    var i :| 0 <= i < |resets| && resets[i] == r;
    assert ResetConnections(inst, resets)[i] == ResetConnection(inst, r);
    if r.synchronousTo.Some? && r.synchronousTo.value in clocks {
      var j :| 0 <= j < |clocks| && clocks[j] == r.synchronousTo.value;
      assert ClockConnections(inst, clocks)[j] == ClockConnection(inst, clocks[j]);
    }
  }

  // ----- What lowering means -----

  /** Pin levels agree with a port connection. */
  predicate Carries(c: Connection, v: Pin -> bool) {
    c.PortConnection? ==> v(c.target) == if c.invert then !v(c.source) else v(c.source)
  }

  /**
   What the domains of an instance ask for: each clock pin has the level of its domain's clock
   signal, and each reset pin is asserted exactly when its domain's reset signal is.
   */
  ghost predicate DomainsReach(inst: Assigned, v: Pin -> bool)
    requires Lowerable(inst)
  {
    && (forall c | c in inst.mod.clocks :: v(Pin(Some(inst.name), c.port)) == v(inst.clocks[c].source))
    && (forall r | r in inst.mod.resets ::
          IsAsserted(r.polarity, v(Pin(Some(inst.name), r.port))) <==>
          IsAsserted(inst.resets[r].polarity, v(inst.resets[r].source)))
  }

  /** Pin levels agree with the new connections exactly when the domains reach all pins of the instance. */
  lemma NewConnectionsMeaning(inst: Assigned, v: Pin -> bool)
    requires Lowerable(inst)
    ensures (forall c | c in NewConnections(inst) :: Carries(c, v)) <==> DomainsReach(inst, v)
  {
    var clocks, resets := inst.mod.clocks, inst.mod.resets;
    var cs, rs := ClockConnections(inst, clocks), ResetConnections(inst, resets);
    forall c | c in clocks
      ensures ClockConnection(inst, c) in cs
    {
      var i :| 0 <= i < |clocks| && clocks[i] == c;
      assert cs[i] == ClockConnection(inst, c);
    }
    forall r | r in resets
      ensures ResetConnection(inst, r) in rs
    {
      var i :| 0 <= i < |resets| && resets[i] == r;
      assert rs[i] == ResetConnection(inst, r);
    }
    assert forall c | c in clocks :: ClockConnection(inst, c) in NewConnections(inst);
    assert forall r | r in resets :: ResetConnection(inst, r) in NewConnections(inst);
    if DomainsReach(inst, v) {
      forall c | c in NewConnections(inst)
        ensures Carries(c, v)
      {
        if c in cs {
          var i :| 0 <= i < |cs| && cs[i] == c;
          assert clocks[i] in clocks;
        } else {
          var i :| 0 <= i < |rs| && rs[i] == c;
          assert resets[i] in resets;
        }
      }
    }
    if forall c | c in NewConnections(inst) :: Carries(c, v) {
      forall r | r in resets
        ensures IsAsserted(r.polarity, v(Pin(Some(inst.name), r.port))) <==>
                IsAsserted(inst.resets[r].polarity, v(inst.resets[r].source))
      {
        assert Carries(ResetConnection(inst, r), v);
      }
      forall c | c in clocks
        ensures v(Pin(Some(inst.name), c.port)) == v(inst.clocks[c].source)
      {
        assert Carries(ClockConnection(inst, c), v);
      }
    }
  }

  /** The same for a whole design. */
  lemma {:induction false} AllNewConnectionsMeaning(insts: seq<Assigned>, v: Pin -> bool)
    requires AllLowerable(insts)
    ensures (forall c | c in AllNewConnections(insts) :: Carries(c, v)) <==>
            forall inst | inst in insts :: DomainsReach(inst, v)
  {
    if insts != [] {
      var front, inst := insts[..|insts| - 1], insts[|insts| - 1];
      assert insts == front + [inst] && inst in insts;
      AllNewConnectionsMeaning(front, v);
      NewConnectionsMeaning(inst, v);
      assert AllNewConnections(insts) == AllNewConnections(front) + NewConnections(inst);
    }
  }

  /**
   An instance can be lowered exactly when each clock and reset is in a domain, and each synchronous
   reset in one that is synchronous to the very domain of its clock.
   */
  lemma LowerableIff(inst: Assigned)
    ensures Lowerable(inst) <==>
            && inst.clocks.Keys >= (set c | c in inst.mod.clocks)
            && inst.resets.Keys >= (set r | r in inst.mod.resets)
            && forall r | r in inst.mod.resets ::
                 match r.synchronousTo
                 case None => true
                 case Some(clock) =>
                   clock in inst.clocks && inst.resets[r].synchronousTo == Some(inst.clocks[clock])
  {
    assert (forall c | c in inst.mod.clocks :: c in inst.clocks) <==>
           inst.clocks.Keys >= (set c | c in inst.mod.clocks);
    assert (forall r | r in inst.mod.resets :: r in inst.resets) <==>
           inst.resets.Keys >= (set r | r in inst.mod.resets);
  }

  // ----- The design -----

  function InstancesOf(c: Connection): set<ModuleInstance> {
    if c.PortConnection? then {}
    else
      (if c.from.inst.Some? then {c.from.inst.value} else {})
      + (if c.to.inst.Some? then {c.to.inst.value} else {})
  }

  /** A connection between interfaces of known clocks does not cross domains; what the source asserts holds. */
  ghost predicate SameDomain(c: Connection)
    reads InstancesOf(c)
  {
    c.InterfaceConnection? && c.from.clock.Some? && c.to.clock.Some? ==>
      && c.from.inst.Some? && c.to.inst.Some?
      && c.from.clock.value in c.from.inst.value.clocks
      && c.to.clock.value in c.to.inst.value.clocks
      && c.from.inst.value.clocks[c.from.clock.value] == c.to.inst.value.clocks[c.to.clock.value]
  }

  ghost predicate Crossless(conns: seq<Connection>)
    reads set c, inst | c in conns && inst in InstancesOf(c) :: inst
  {
    forall c | c in conns :: SameDomain(c)
  }

  /** An interface of an instance belongs to a component, an external one has no clock: what frontends build. */
  ghost predicate Attached(conns: seq<Connection>, comps: seq<ModuleInstance>) {
    forall c | c in conns && c.InterfaceConnection? :: AttachedSide(c.from, comps) && AttachedSide(c.to, comps)
  }

  ghost predicate AttachedSide(s: Side, comps: seq<ModuleInstance>) {
    match s.inst
    case None => s.clock.None?
    case Some(inst) => inst in comps
  }

  /**
   No connection crosses domains exactly when each one between interfaces of known clocks has
   instances on both sides, with one and the same domain for the two clocks.
   */
  lemma CrosslessIff(conns: seq<Connection>)
    ensures Crossless(conns) <==>
            forall from: Side, to: Side | InterfaceConnection(from, to) in conns ::
              match (from.clock, to.clock)
              case (Some(c), Some(d)) =>
                && from.inst.Some? && c in from.inst.value.clocks
                && to.inst.Some? && d in to.inst.value.clocks
                && from.inst.value.clocks[c] == to.inst.value.clocks[d]
              case _ => true
  {
    assert forall c | c in conns && c.InterfaceConnection? :: InterfaceConnection(c.from, c.to) in conns;
    forall c | c in conns && c.InterfaceConnection?
      ensures c == InterfaceConnection(c.from, c.to)
    {
    }
  }

  /** Without components there is no connection that could cross domains. */
  lemma NothingToCross(conns: seq<Connection>)
    requires Attached(conns, [])
    ensures Crossless(conns)
  {
  }

  function Values(comps: seq<ModuleInstance>): (vs: seq<Assigned>)
    reads comps
    ensures |vs| == |comps| && forall i | 0 <= i < |comps| :: vs[i] == comps[i].Value()
  {
    if comps == [] then [] else Values(comps[..|comps| - 1]) + [comps[|comps| - 1].Value()]
  }

  class Design {
    var components: seq<ModuleInstance>
    var connections: seq<Connection>

    constructor (components: seq<ModuleInstance>, connections: seq<Connection>)
      ensures this.components == components && this.connections == connections
    {
      this.components, this.connections := components, connections;
    }

    method AddConnection(c: Connection)
      modifies this`connections
      ensures connections == old(connections) + [c]
    {
      connections := connections + [c];
    }

    method CheckIntfCdc() returns (r: Outcome)
      ensures r.Done? <==> Crossless(connections)
      ensures !MissingDomain(r)
    {
      for i := 0 to |connections|
        invariant Crossless(connections[..i])
      {
        var c := connections[i];
        assert c in connections;
        assert connections[..i + 1] == connections[..i] + [c];
        if c.PortConnection? || c.from.clock.None? || c.to.clock.None? {
          continue;
        }
        if c.from.inst.None? || c.to.inst.None? {
          return Failed(ClockOfExternal);
        }
        var from, to := c.from.inst.value, c.to.inst.value;
        if c.from.clock.value !in from.clocks || c.to.clock.value !in to.clocks {
          return Failed(UnassignedInterfaceClock);
        }
        if from.clocks[c.from.clock.value] != to.clocks[c.to.clock.value] {
          return Failed(CrossesDomains);
        }
      }
      assert connections[..|connections|] == connections;
      return Done;
    }

    method LowerClocks(comp: ModuleInstance) returns (r: Outcome)
      modifies this`connections
      ensures r.Done? <==> forall c | c in comp.mod.clocks :: c in comp.clocks
      ensures r.Done? ==> connections == old(connections) + ClockConnections(comp.Value(), comp.mod.clocks)
      ensures PortsAppended(old(connections), connections)
    {
      var inst, clocks := comp.Value(), comp.mod.clocks;
      for i := 0 to |clocks|
        invariant forall c | c in clocks[..i] :: c in inst.clocks
        invariant connections == old(connections) + ClockConnections(inst, clocks[..i])
      {
        assert clocks[i] in clocks;
        assert clocks[..i + 1] == clocks[..i] + [clocks[i]];
        if clocks[i] !in comp.clocks {
          return Failed(NoClockDomain);
        }
        AddConnection(PortConnection(comp.clocks[clocks[i]].source, Pin(Some(comp.name), clocks[i].port), false));
      }
      assert clocks[..|clocks|] == clocks;
      return Done;
    }

    method LowerResets(comp: ModuleInstance) returns (r: Outcome)
      modifies this`connections
      ensures r.Done? <==> forall x | x in comp.mod.resets :: ResetLowerable(comp.Value(), x)
      ensures HasDomains(comp.Value()) ==> !MissingDomain(r)
      ensures r.Done? ==> connections == old(connections) + ResetConnections(comp.Value(), comp.mod.resets)
      ensures PortsAppended(old(connections), connections)
    {
      var inst, resets := comp.Value(), comp.mod.resets;
      for i := 0 to |resets|
        invariant forall x | x in resets[..i] :: ResetLowerable(inst, x)
        invariant connections == old(connections) + ResetConnections(inst, resets[..i])
      {
        var reset := resets[i];
        assert reset in resets;
        assert resets[..i + 1] == resets[..i] + [reset];
        if reset !in comp.resets {
          return Failed(NoResetDomain);
        }
        var dom := comp.resets[reset];
        var invert := dom.polarity != reset.polarity;
        if reset.synchronousTo.Some? && dom.synchronousTo.None? {
          return Failed(AsynchronousDomain);
        }
        if reset.synchronousTo.Some? {
          if reset.synchronousTo.value !in comp.clocks {
            return Failed(NoClockDomain);
          }
          if comp.clocks[reset.synchronousTo.value] != dom.synchronousTo.value {
            return Failed(OtherClockDomain);
          }
        }
        AddConnection(PortConnection(dom.source, Pin(Some(comp.name), reset.port), invert));
      }
      assert resets[..|resets|] == resets;
      return Done;
    }

    method LowerComponent(comp: ModuleInstance) returns (r: Outcome)
      modifies this`connections
      ensures r.Done? <==> Lowerable(comp.Value())
      ensures HasDomains(comp.Value()) ==> !MissingDomain(r)
      ensures r.Done? ==> connections == old(connections) + NewConnections(comp.Value())
      ensures PortsAppended(old(connections), connections)
    {
      r := LowerClocks(comp);
      if r.Done? {
        r := LowerResets(comp);
      }
    }

    /**
     Succeeds exactly when every instance can be lowered and no interface connection crosses clock
     domains. Then the new connections are those of the instances, in order. The check sits in the
     loop over the components; where there are none it is not made, and nothing could fail it.
     */
    method LowerDomains() returns (r: Outcome)
      modifies this`connections
      ensures AllHaveDomains(Values(components)) ==> !MissingDomain(r)
      ensures r.Done? <==> AllLowerable(Values(components)) && (components != [] ==> Crossless(old(connections)))
      ensures Attached(old(connections), components) ==>
                (r.Done? <==> AllLowerable(Values(components)) && Crossless(old(connections)))
      ensures r.Done? ==> connections == old(connections) + AllNewConnections(Values(components))
      ensures PortsAppended(old(connections), connections)
    {
      if components == [] && Attached(connections, components) {
        NothingToCross(connections);
      }
      ghost var insts, given := Values(components), connections;
      for i := 0 to |components|
        invariant Progressed(insts, i, given, connections)
        invariant i > 0 ==> Crossless(given)
      {
        ghost var before := connections;
        assert insts[i] == components[i].Value() && insts[i] in insts;
        r := LowerComponent(components[i]);
        AppendedTwice(given, before, connections);
        if r.Failed? {
          return;
        }
        OneMoreInstance(insts, i, given, before);
        r := CheckIntfCdc();
        CrosslessAppended(given, connections);
        if r.Failed? {
          return;
        }
      }
      assert insts[..|components|] == insts;
      return Done;
    }
  }

  /** The first `i` instances are lowered. */
  ghost predicate Progressed(insts: seq<Assigned>, i: nat, given: seq<Connection>, conns: seq<Connection>) {
    && i <= |insts|
    && AllLowerable(insts[..i])
    && conns == given + AllNewConnections(insts[..i])
    && PortsAppended(given, conns)
  }

  lemma OneMoreInstance(insts: seq<Assigned>, i: nat, given: seq<Connection>, conns: seq<Connection>)
    requires i < |insts| && Progressed(insts, i, given, conns) && Lowerable(insts[i])
    requires PortsAppended(given, conns + NewConnections(insts[i]))
    ensures Progressed(insts, i + 1, given, conns + NewConnections(insts[i]))
  {
    assert insts[..i + 1] == insts[..i] + [insts[i]] && insts[..i + 1][..i] == insts[..i];
    assert given + AllNewConnections(insts[..i]) + NewConnections(insts[i]) ==
           given + (AllNewConnections(insts[..i]) + NewConnections(insts[i]));
  }

  /** Only port connections were added. */
  ghost predicate PortsAppended(before: seq<Connection>, after: seq<Connection>) {
    before <= after && forall i | |before| <= i < |after| :: after[i].PortConnection?
  }

  lemma AppendedTwice(a: seq<Connection>, b: seq<Connection>, c: seq<Connection>)
    requires PortsAppended(a, b) && PortsAppended(b, c)
    ensures PortsAppended(a, c)
  {
    forall i | |a| <= i < |c|
      ensures c[i].PortConnection?
    {
      if i < |b| {
        assert b[i] == c[i];
      }
    }
  }

  lemma CrosslessAppended(before: seq<Connection>, after: seq<Connection>)
    requires PortsAppended(before, after)
    ensures Crossless(before) <==> Crossless(after)
  {
    forall c | c in after && c.InterfaceConnection?
      ensures c in before
    {
      var i :| 0 <= i < |after| && after[i] == c;
      assert before[i] == c;
    }
    assert forall c | c in before :: c in after;
  }

  // ----- Assignment by the YAML frontend -----

  /** `find_by_name`: the first of a name. */
  function FindByName<T>(items: seq<T>, nameOf: T -> string, name: string): Option<T> {
    if items == [] then None
    else if nameOf(items[0]) == name then Some(items[0])
    else FindByName(items[1..], nameOf, name)
  }

  lemma {:induction false} FoundByName<T>(items: seq<T>, nameOf: T -> string, name: string)
    ensures FindByName(items, nameOf, name).Some? ==>
              && FindByName(items, nameOf, name).value in items
              && nameOf(FindByName(items, nameOf, name).value) == name
  {
    if items != [] && nameOf(items[0]) != name {
      FoundByName(items[1..], nameOf, name);
    }
  }

  lemma {:induction false} FirstOfName<T>(items: seq<T>, nameOf: T -> string, k: nat)
    requires k < |items| && forall j | 0 <= j < k :: nameOf(items[j]) != nameOf(items[k])
    ensures FindByName(items, nameOf, nameOf(items[k])) == Some(items[k])
  {
    if k > 0 {
      FirstOfName(items[1..], nameOf, k - 1);
    }
  }

  /** The found item is the first of its name, and only if there is none of that name nothing is found. */
  lemma {:induction false} FindByNameIff<T>(items: seq<T>, nameOf: T -> string, name: string)
    ensures match FindByName(items, nameOf, name)
            case None => forall x | x in items :: nameOf(x) != name
            case Some(x) => exists i | 0 <= i < |items| ::
              items[i] == x && nameOf(x) == name && forall j | 0 <= j < i :: nameOf(items[j]) != name
  {
    if items != [] && nameOf(items[0]) != name {
      FindByNameIff(items[1..], nameOf, name);
      if FindByName(items[1..], nameOf, name).Some? {
        var x := FindByName(items[1..], nameOf, name).value;
        var i :| 0 <= i < |items[1..]| && items[1..][i] == x && nameOf(x) == name
                 && forall j | 0 <= j < i :: nameOf(items[1..][j]) != name;
        assert items[i + 1] == x;
        forall j | 0 <= j < i + 1
          ensures nameOf(items[j]) != name
        {
          assert j > 0 ==> items[j] == items[1..][j - 1];
        }
      }
    }
  }

  const CLOCK_NAME: Clock -> string := (c: Clock) => c.name
  const RESET_NAME: Reset -> string := (r: Reset) => r.name
  const CLOCK_DOMAIN_NAME: ClockDomain -> string := (d: ClockDomain) => d.name
  const RESET_DOMAIN_NAME: ResetDomain -> string := (d: ResetDomain) => d.name

  /** The name of the domain that a clock or reset is to be in: the one given for its name, else the default. */
  function Wanted<T(==)>(items: seq<T>, nameOf: T -> string, x: T, given: map<string, string>): string {
    if nameOf(x) in given && FindByName(items, nameOf, nameOf(x)) == Some(x) then given[nameOf(x)] else "default"
  }

  /** Each of `items` is in the first domain of the wanted name, and nothing else is in any. */
  ghost predicate DomainsAssigned<T(!new), D>(items: seq<T>, nameOf: T -> string, given: map<string, string>,
                                              doms: seq<D>, domNameOf: D -> string, chosen: map<T, D>) {
    && (forall x :: x in chosen <==> x in items)
    && (forall x | x in chosen :: FindByName(doms, domNameOf, Wanted(items, nameOf, x, given)) == Some(chosen[x]))
  }

  /**
   With distinct names, an item's domain is the first one that has the name given for the item, or
   the name `default` if none is given.
   */
  lemma AssignedByName<T(!new), D>(items: seq<T>, nameOf: T -> string, given: map<string, string>, doms: seq<D>,
                                   domNameOf: D -> string, chosen: map<T, D>, x: T)
    requires DomainsAssigned(items, nameOf, given, doms, domNameOf, chosen) && x in items
    requires AllNamesDiffer(items, nameOf)
    ensures x in chosen
    ensures
      var wanted := GivenOrDefault(given, nameOf(x));
      exists i | 0 <= i < |doms| ::
        doms[i] == chosen[x] && domNameOf(doms[i]) == wanted && forall j | 0 <= j < i :: domNameOf(doms[j]) != wanted
  {
    FindByNameIff(items, nameOf, nameOf(x));
    FindByNameIff(doms, domNameOf, Wanted(items, nameOf, x, given));
  }

  predicate NamesKnown<T>(items: seq<T>, nameOf: T -> string, given: map<string, string>) {
    forall n | n in given :: FindByName(items, nameOf, n).Some?
  }

  predicate DomainsFound<T(==), D>(items: seq<T>, nameOf: T -> string, given: map<string, string>,
                                   doms: seq<D>, domNameOf: D -> string) {
    forall x | x in items :: FindByName(doms, domNameOf, Wanted(items, nameOf, x, given)).Some?
  }

  ghost predicate AllWanted<T(!new)>(items: seq<T>, nameOf: T -> string, given: map<string, string>,
                                     names: map<T, string>) {
    (forall x :: x in names <==> x in items) && forall x | x in names :: names[x] == Wanted(items, nameOf, x, given)
  }

  /** The names of the wanted domains, if every given name is one of the items'. */
  method WantedNames<T(==, !new)>(items: seq<T>, nameOf: T -> string, given: map<string, string>)
    returns (r: Option<map<T, string>>)
    ensures r.Some? <==> NamesKnown(items, nameOf, given)
    ensures r.Some? ==> AllWanted(items, nameOf, given, r.value)
  {
    var names: map<T, string> := map[];
    var rest := given.Keys;
    while rest != {}
      invariant rest <= given.Keys
      invariant forall n | n in given && n !in rest :: FindByName(items, nameOf, n).Some?
      invariant forall x | x in names :: x in items && names[x] == Wanted(items, nameOf, x, given)
      invariant forall x | x in items && nameOf(x) in given && nameOf(x) !in rest
                           && FindByName(items, nameOf, nameOf(x)) == Some(x) :: x in names
      decreases rest
    {
      var n :| n in rest;
      rest := rest - {n};
      FoundByName(items, nameOf, n);
      match FindByName(items, nameOf, n)
      case None => return None;
      case Some(x) => names := names[x := given[n]];
    }
    for i := 0 to |items|
      invariant forall x | x in names :: x in items && names[x] == Wanted(items, nameOf, x, given)
      invariant forall x | x in items && nameOf(x) in given && FindByName(items, nameOf, nameOf(x)) == Some(x) ::
                  x in names
      invariant forall x | x in items[..i] :: x in names
    {
      var x := items[i];
      assert items[..i + 1] == items[..i] + [x];
      if x !in names {
        names := names[x := "default"];
      }
    }
    assert items[..|items|] == items;
    return Some(names);
  }

  /** The first domain of each wanted name, if there is one for each. */
  method FindDomains<T(==, !new), D>(names: map<T, string>, doms: seq<D>, domNameOf: D -> string,
                                     ghost items: seq<T>, ghost nameOf: T -> string, ghost given: map<string, string>)
    returns (r: Option<map<T, D>>)
    requires AllWanted(items, nameOf, given, names)
    ensures r.Some? <==> DomainsFound(items, nameOf, given, doms, domNameOf)
    ensures r.Some? ==> DomainsAssigned(items, nameOf, given, doms, domNameOf, r.value)
  {
    var chosen: map<T, D> := map[];
    var left := names.Keys;
    while left != {}
      invariant left <= names.Keys
      invariant chosen.Keys == names.Keys - left
      invariant forall x | x in chosen ::
                  FindByName(doms, domNameOf, Wanted(items, nameOf, x, given)) == Some(chosen[x])
      decreases left
    {
      var x :| x in left;
      left := left - {x};
      match FindByName(doms, domNameOf, names[x])
      case None => return None;
      case Some(dom) => chosen := chosen[x := dom];
    }
    return Some(chosen);
  }

  /** The domains given for one instance in the design description. */
  datatype Ip = Ip(name: string, clocks: map<string, string>, resets: map<string, string>)

  const COMPONENT_NAME: ModuleInstance -> string := (m: ModuleInstance) => m.name

  ghost predicate OwnClocks(mod: Module) {
    forall r | r in mod.resets && r.synchronousTo.Some? :: r.synchronousTo.value in mod.clocks
  }

  /**
   The components that the frontend created: one for each described instance, in order, and then
   the nested hierarchies, whose modules have neither clocks nor resets.
   */
  ghost predicate Described(comps: seq<ModuleInstance>, ips: seq<Ip>) {
    && |ips| <= |comps|
    && (forall i, j | 0 <= i < j < |comps| :: comps[i] != comps[j])
    && (forall i, j | 0 <= i < j < |ips| :: ips[i].name != ips[j].name)
    && (forall k | 0 <= k < |ips| :: comps[k].name == ips[k].name && OwnClocks(comps[k].mod))
    && (forall k | |ips| <= k < |comps| :: comps[k].mod == Module([], []))
  }

  /** The domains of an instance are those wanted by its description. */
  ghost predicate IpAssigned(inst: Assigned, ip: Ip, clockDoms: seq<ClockDomain>, resetDoms: seq<ResetDomain>) {
    && (forall c | c in inst.mod.clocks ::
          c in inst.clocks
          && FindByName(clockDoms, CLOCK_DOMAIN_NAME, Wanted(inst.mod.clocks, CLOCK_NAME, c, ip.clocks))
             == Some(inst.clocks[c]))
    && (forall r | r in inst.mod.resets ::
          r in inst.resets
          && FindByName(resetDoms, RESET_DOMAIN_NAME, Wanted(inst.mod.resets, RESET_NAME, r, ip.resets))
             == Some(inst.resets[r]))
  }

  /** The first thing that is wrong with the names given for an instance, in the order of the source. */
  function AssignmentOutcome(mod: Module, ip: Ip, clockDoms: seq<ClockDomain>, resetDoms: seq<ResetDomain>): Outcome {
    if !NamesKnown(mod.clocks, CLOCK_NAME, ip.clocks) then Failed(UnknownClock)
    else if !NamesKnown(mod.resets, RESET_NAME, ip.resets) then Failed(UnknownReset)
    else if !DomainsFound(mod.clocks, CLOCK_NAME, ip.clocks, clockDoms, CLOCK_DOMAIN_NAME)
    then Failed(UnknownClockDomain)
    else if !DomainsFound(mod.resets, RESET_NAME, ip.resets, resetDoms, RESET_DOMAIN_NAME)
    then Failed(UnknownResetDomain)
    else Done
  }

  ghost predicate Named<T>(items: seq<T>, nameOf: T -> string, name: string) {
    exists x | x in items :: nameOf(x) == name
  }

  ghost predicate AllNamesDiffer<T>(items: seq<T>, nameOf: T -> string) {
    forall x, y | x in items && y in items && nameOf(x) == nameOf(y) :: x == y
  }

  /** The domain name that was given for a name, or else the default one. */
  function GivenOrDefault(given: map<string, string>, name: string): string {
    if name in given then given[name] else "default"
  }

  lemma NamedIff<T>(items: seq<T>, nameOf: T -> string, name: string)
    ensures FindByName(items, nameOf, name).Some? <==> Named(items, nameOf, name)
  {
    FindByNameIff(items, nameOf, name);
  }

  lemma NamesKnownIff<T>(items: seq<T>, nameOf: T -> string, given: map<string, string>)
    ensures NamesKnown(items, nameOf, given) <==> forall n | n in given :: Named(items, nameOf, n)
  {
    forall n | n in given
      ensures FindByName(items, nameOf, n).Some? <==> Named(items, nameOf, n)
    {
      NamedIff(items, nameOf, n);
    }
  }

  lemma DomainsFoundIff<T, D>(items: seq<T>, nameOf: T -> string, given: map<string, string>,
                              doms: seq<D>, domNameOf: D -> string)
    requires AllNamesDiffer(items, nameOf)
    ensures DomainsFound(items, nameOf, given, doms, domNameOf) <==>
            forall x | x in items :: Named(doms, domNameOf, GivenOrDefault(given, nameOf(x)))
  {
    forall x | x in items
      ensures FindByName(doms, domNameOf, Wanted(items, nameOf, x, given)).Some? <==>
              Named(doms, domNameOf, GivenOrDefault(given, nameOf(x)))
    {
      FindByNameIff(items, nameOf, nameOf(x));
      NamedIff(doms, domNameOf, GivenOrDefault(given, nameOf(x)));
    }
  }

  /**
   For a module whose clocks have different names, and whose resets have: an instance is assigned its
   domains unless a name is given that no clock has, or no reset, or one of its clocks is to be in a
   domain that there is not, or one of its resets. The first of these is the error.
   */
  lemma AssignmentOutcomeIs(mod: Module, ip: Ip, clockDoms: seq<ClockDomain>, resetDoms: seq<ResetDomain>)
    requires AllNamesDiffer(mod.clocks, CLOCK_NAME) && AllNamesDiffer(mod.resets, RESET_NAME)
    ensures
      AssignmentOutcome(mod, ip, clockDoms, resetDoms) ==
      if !(forall n | n in ip.clocks :: Named(mod.clocks, CLOCK_NAME, n)) then Failed(UnknownClock)
      else if !(forall n | n in ip.resets :: Named(mod.resets, RESET_NAME, n)) then Failed(UnknownReset)
      else if !(forall c | c in mod.clocks :: Named(clockDoms, CLOCK_DOMAIN_NAME, GivenOrDefault(ip.clocks, c.name)))
      then Failed(UnknownClockDomain)
      else if !(forall r | r in mod.resets :: Named(resetDoms, RESET_DOMAIN_NAME, GivenOrDefault(ip.resets, r.name)))
      then Failed(UnknownResetDomain)
      else Done
  {
    NamesKnownIff(mod.clocks, CLOCK_NAME, ip.clocks);
    NamesKnownIff(mod.resets, RESET_NAME, ip.resets);
    DomainsFoundIff(mod.clocks, CLOCK_NAME, ip.clocks, clockDoms, CLOCK_DOMAIN_NAME);
    DomainsFoundIff(mod.resets, RESET_NAME, ip.resets, resetDoms, RESET_DOMAIN_NAME);
  }

  ghost predicate AllAssignable(comps: seq<ModuleInstance>, ips: seq<Ip>, count: nat,
                                clockDoms: seq<ClockDomain>, resetDoms: seq<ResetDomain>)
    requires count <= |ips| <= |comps|
  {
    forall k | 0 <= k < count :: AssignmentOutcome(comps[k].mod, ips[k], clockDoms, resetDoms) == Done
  }

  method AssignInstance(inst: ModuleInstance, ip: Ip, clockDoms: seq<ClockDomain>, resetDoms: seq<ResetDomain>)
    returns (r: Outcome)
    modifies inst
    ensures r == AssignmentOutcome(inst.mod, ip, clockDoms, resetDoms)
    ensures r.Done? ==> IpAssigned(inst.Value(), ip, clockDoms, resetDoms)
    ensures r.Failed? ==> inst.Value() == old(inst.Value())
  {
    var mod := inst.mod;
    var clockNames := WantedNames(mod.clocks, CLOCK_NAME, ip.clocks);
    if clockNames.None? {
      return Failed(UnknownClock);
    }
    var resetNames := WantedNames(mod.resets, RESET_NAME, ip.resets);
    if resetNames.None? {
      return Failed(UnknownReset);
    }
    var clocks := FindDomains(clockNames.value, clockDoms, CLOCK_DOMAIN_NAME, mod.clocks, CLOCK_NAME, ip.clocks);
    if clocks.None? {
      return Failed(UnknownClockDomain);
    }
    var resets := FindDomains(resetNames.value, resetDoms, RESET_DOMAIN_NAME, mod.resets, RESET_NAME, ip.resets);
    if resets.None? {
      return Failed(UnknownResetDomain);
    }
    inst.clocks := inst.clocks + clocks.value;
    inst.resets := inst.resets + resets.value;
    return Done;
  }

  ghost predicate IpsAssigned(comps: seq<ModuleInstance>, ips: seq<Ip>, count: nat,
                              clockDoms: seq<ClockDomain>, resetDoms: seq<ResetDomain>)
    requires count <= |ips| <= |comps|
    reads comps
  {
    forall k | 0 <= k < count :: IpAssigned(comps[k].Value(), ips[k], clockDoms, resetDoms)
  }

  method AssignAll(comps: seq<ModuleInstance>, ips: seq<Ip>, clockDoms: seq<ClockDomain>, resetDoms: seq<ResetDomain>)
    returns (r: Outcome)
    requires Described(comps, ips)
    modifies comps
    ensures !MissingDomain(r)
    ensures r.Done? <==> AllAssignable(comps, ips, |ips|, clockDoms, resetDoms)
    ensures r.Done? ==> IpsAssigned(comps, ips, |ips|, clockDoms, resetDoms)
  {
    for k := 0 to |ips|
      invariant IpsAssigned(comps, ips, k, clockDoms, resetDoms)
      invariant AllAssignable(comps, ips, k, clockDoms, resetDoms)
    {
      FirstOfName(comps, COMPONENT_NAME, k);
      var inst := FindByName(comps, COMPONENT_NAME, ips[k].name).value;
      r := AssignInstance(inst, ips[k], clockDoms, resetDoms);
      if r.Failed? {
        return;
      }
    }
    return Done;
  }

  /** Once the described instances are assigned, no instance lacks a domain. */
  lemma AssignedHaveDomains(comps: seq<ModuleInstance>, ips: seq<Ip>, clockDoms: seq<ClockDomain>,
                            resetDoms: seq<ResetDomain>)
    requires Described(comps, ips) && IpsAssigned(comps, ips, |ips|, clockDoms, resetDoms)
    ensures AllHaveDomains(Values(comps))
  {
    var insts := Values(comps);
    forall inst | inst in insts
      ensures HasDomains(inst)
    {
      var k :| 0 <= k < |insts| && insts[k] == inst;
      assert insts[k] == comps[k].Value();
      if k < |ips| {
        assert IpAssigned(comps[k].Value(), ips[k], clockDoms, resetDoms);
      }
    }
  }

  /**
   Assigns every described instance its domains and lowers the design. If it gets as far as
   lowering, every clock and reset of every instance has the wanted domain, so lowering cannot
   fail for want of one.
   */
  method ParseClocksResets(design: Design, ips: seq<Ip>, clockDoms: seq<ClockDomain>, resetDoms: seq<ResetDomain>)
    returns (r: Outcome)
    requires Described(design.components, ips)
    modifies design`connections, design.components
    ensures design.components == old(design.components)
    ensures !MissingDomain(r)
    ensures AllAssignable(design.components, ips, |ips|, clockDoms, resetDoms) ==>
              IpsAssigned(design.components, ips, |ips|, clockDoms, resetDoms)
    ensures r.Done? <==>
              && AllAssignable(design.components, ips, |ips|, clockDoms, resetDoms)
              && AllLowerable(Values(design.components))
              && (design.components != [] ==> Crossless(old(design.connections)))
    ensures Attached(old(design.connections), design.components) ==>
              (r.Done? <==>
                && AllAssignable(design.components, ips, |ips|, clockDoms, resetDoms)
                && AllLowerable(Values(design.components))
                && Crossless(old(design.connections)))
    ensures r.Done? ==>
              design.connections == old(design.connections) + AllNewConnections(Values(design.components))
    ensures PortsAppended(old(design.connections), design.connections)
  {
    r := AssignAll(design.components, ips, clockDoms, resetDoms);
    if r.Done? {
      AssignedHaveDomains(design.components, ips, clockDoms, resetDoms);
      r := design.LowerDomains();
    }
  }
}
