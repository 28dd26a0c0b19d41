/**
 Lowering of port and constant connections to port maps, nets and assigns
 (`_SystemVerilogDesignData`), as functions on netlists, with the proof that pin values satisfy the
 connections exactly when they extend to values of the generated nets that satisfy the netlist.
 */
module SvLowering {
  import opened Wrappers
  import opened Sequences
  import opened SvNetlist

  datatype Source = FromRef(ref: Ref) | FromConstant(text: string)

  /** One driver of (a part of) a sink. */
  datatype Partial = Partial(select: Select, source: Source, invert: bool)

  /** `conns_to_partials` with its insertion order, and `used_ports`. */
  datatype Pending = Pending(order: seq<Pin>, partials: map<Pin, seq<Partial>>, used: set<Pin>)

  const NOTHING_PENDING := Pending([], map[], {})
  const EMPTY_NETLIST := Netlist({}, map[], map[])

  // ----- Collecting connections by sink -----

  function StoreSel(s: Pending, ref: Ref, source: Source, invert: bool): Pending {
    var known := ref.pin in s.partials;
    Pending(
      if known then s.order else s.order + [ref.pin],
      s.partials[ref.pin := (if known then s.partials[ref.pin] else []) + [Partial(ref.select, source, invert)]],
      if ref.pin.inst.Some? then s.used + {ref.pin} else s.used)
  }

  /** The side of a connection that is stored as the sink, and what drives it. */
  datatype Routed = Routed(sink: Ref, source: Source, invert: bool)

  function Route(c: Connection): Routed {
    match c
    case ConstantConnection(value, target) => Routed(target, FromConstant(value), false)
    case PortConnection(source, other, invert) =>
      if IsSink(source.pin)
      then Routed(source, FromRef(other), invert)
      else Routed(other, FromRef(source), invert)
  }

  function ParseConnection(s: Pending, c: Connection): Pending {
    var r := Route(c);
    StoreSel(s, r.sink, r.source, r.invert)
  }

  function Collect(conns: seq<Connection>): Pending {
    if conns == [] then NOTHING_PENDING
    else ParseConnection(Collect(conns[..|conns| - 1]), conns[|conns| - 1])
  }

  ghost predicate Consistent(s: Pending) {
    && (forall i, j | 0 <= i < j < |s.order| :: s.order[i] != s.order[j])
    && (forall k :: k in s.order <==> k in s.partials)
    && (forall k | k in s.partials :: s.partials[k] != [])
    && (forall k :: k in s.used <==> k in s.partials && k.inst.Some?)
  }

  // ----- Emitting one sink -----

  /** What `_port_map_or_assign` is handed: a port reference or a finished text. */
  datatype Operand = OnRef(ref: Ref) | OnText(expr: Expr)

  function Serialize(o: Operand): Expr {
    match o
    case OnRef(r) => Part(PinBase(r.pin), r.select)
    case OnText(e) => e
  }

  function OperandOf(s: Source): Operand {
    match s
    case FromRef(r) => OnRef(r)
    case FromConstant(t) => OnText(Literal(t))
  }

  function Inverted(invert: bool, e: Expr): Expr {
    if invert then Not(e) else e
  }

  predicate Mappable(d: Netlist, port: Operand) {
    port.OnRef? && port.ref.pin.inst.Some? && port.ref.select == [] && port.ref.pin !in d.portMaps
  }

  function PortMapOrAssign(d: Netlist, port: Operand, right: Operand, invert: bool): Netlist {
    if Mappable(d, port)
    then d.(portMaps := d.portMaps[port.ref.pin := Inverted(invert, Serialize(right))])
    else d.(assigns := d.assigns[Serialize(right) := Inverted(invert, Serialize(port))])
  }

  predicate IsPlainOutput(s: Source) {
    s.FromRef? && s.ref.pin.inst.Some? && s.ref.select == [] && !s.ref.pin.dir.In?
  }

  function ConnectInternalUnsliced(d: Netlist, sink: Pin, target: Source, invert: bool): Netlist {
    if !IsPlainOutput(target)
    then PortMapOrAssign(d, OnRef(Ref(sink, [])), OperandOf(target), invert)
    else
      var src := target.ref.pin;
      var shown := if src in d.portMaps then d.portMaps[src] else Serialize(OnRef(target.ref));
      d.(portMaps := d.portMaps[sink := Inverted(invert, shown)])
  }

  function ConnectExternalUnsliced(d: Netlist, sink: Pin, target: Source, invert: bool): Netlist {
    var name := OnText(Bare(PinBase(sink)));
    if IsPlainOutput(target) && target.ref.pin in d.portMaps
    then PortMapOrAssign(d, OnText(d.portMaps[target.ref.pin]), name, invert)
    else PortMapOrAssign(d, OperandOf(target), name, invert)
  }

  /** Inverted drivers are never constants: the source asserts it. */
  predicate InversionsOfPorts(xs: seq<Partial>) {
    forall x | x in xs :: x.invert ==> x.source.FromRef?
  }

  predicate Direct(sink: Pin, xs: seq<Partial>)
    requires InversionsOfPorts(xs)
  {
    && |xs| == 1
    && xs[0].select == []
    && (xs[0].invert ==>
          assert xs[0] in xs;
          && sink.dir.In?
          && (xs[0].source.ref.pin.dir.Out? || xs[0].source.ref.pin.inst.None?))
  }

  predicate AnyInverted(xs: seq<Partial>) {
    exists x | x in xs :: x.invert
  }

  /** What the parts of a sink are assigned through: a net, or the external port itself. */
  function WireBase(sink: Pin, anyInverted: bool): Base {
    if sink.inst.Some? then NetBase(Wire(sink))
    else if anyInverted then NetBase(Inv(sink))
    else PinBase(sink)
  }

  function WireForPartialPort(d: Netlist, sink: Pin, anyInverted: bool): Netlist {
    if sink.inst.Some? then
      d.(nets := d.nets + {Wire(sink)}, portMaps := d.portMaps[sink := Bare(NetBase(Wire(sink)))])
    else if anyInverted then
      d.(nets := d.nets + {Inv(sink)}, assigns := d.assigns[Bare(PinBase(sink)) := Bare(NetBase(Inv(sink)))])
    else d
  }

  function ConnectPartialSlice(d: Netlist, sink: Pin, wire: Base, x: Partial): Netlist {
    var slice := OnText(Part(wire, x.select));
    if IsSink(sink)
    then PortMapOrAssign(d, OperandOf(x.source), slice, x.invert)
    else PortMapOrAssign(d, slice, OperandOf(x.source), x.invert)
  }

  function ConnectSlices(d: Netlist, sink: Pin, wire: Base, xs: seq<Partial>): Netlist {
    if xs == [] then d
    else ConnectPartialSlice(ConnectSlices(d, sink, wire, xs[..|xs| - 1]), sink, wire, xs[|xs| - 1])
  }

  function ParsePartialConnEntry(d: Netlist, sink: Pin, selects: seq<Partial>): Netlist
    requires InversionsOfPorts(selects)
  {
    DedupFacts(selects);
    var xs := Dedup(selects);
    if Direct(sink, xs) then
      if sink.inst.Some?
      then ConnectInternalUnsliced(d, sink, xs[0].source, xs[0].invert)
      else ConnectExternalUnsliced(d, sink, xs[0].source, xs[0].invert)
    else
      ConnectSlices(WireForPartialPort(d, sink, AnyInverted(xs)), sink, WireBase(sink, AnyInverted(xs)), xs)
  }

  ghost predicate Lowerable(s: Pending) {
    Consistent(s) && forall k | k in s.partials :: InversionsOfPorts(s.partials[k])
  }

  /** The first `count` sinks, in order. */
  function ParsePartialConns(s: Pending, count: nat): Netlist
    requires Lowerable(s) && count <= |s.order|
  {
    if count == 0 then EMPTY_NETLIST
    else
      assert s.order[count - 1] in s.order;
      ParsePartialConnEntry(ParsePartialConns(s, count - 1), s.order[count - 1], s.partials[s.order[count - 1]])
  }

  lemma NextEntry(s: Pending, i: nat)
    requires Lowerable(s) && i < |s.order|
    ensures
      var k := s.order[i];
      && k in s.partials && InversionsOfPorts(s.partials[k])
      && ParsePartialConns(s, i + 1) == ParsePartialConnEntry(ParsePartialConns(s, i), k, s.partials[k])
  {
    assert s.order[i] in s.order;
  }

  function Lower(conns: seq<Connection>): Netlist {
    CollectLowerable(conns);
    ParsePartialConns(Collect(conns), |Collect(conns).order|)
  }

  // ----- Facts about collecting -----

  lemma StoreSelLowerable(s: Pending, ref: Ref, source: Source, invert: bool)
    requires Lowerable(s) && (invert ==> source.FromRef?)
    ensures Lowerable(StoreSel(s, ref, source, invert))
  {
    var s' := StoreSel(s, ref, source, invert);
    forall k | k in s'.partials
      ensures s'.partials[k] != [] && InversionsOfPorts(s'.partials[k])
    {
      if k != ref.pin {
        assert k in s.partials && s'.partials[k] == s.partials[k];
      }
    }
    forall k
      ensures k in s'.order <==> k in s'.partials
    {
      assert k in s'.order <==> k in s.order || k == ref.pin;
    }
    assert Consistent(s');
  }

  lemma {:induction false} CollectLowerable(conns: seq<Connection>)
    ensures Lowerable(Collect(conns))
  {
    if conns != [] {
      CollectLowerable(conns[..|conns| - 1]);
      var r := Route(conns[|conns| - 1]);
      StoreSelLowerable(Collect(conns[..|conns| - 1]), r.sink, r.source, r.invert);
    }
  }

  /** What is stored for a sink is exactly what some connection says about it. */
  lemma {:induction false} CollectedExactly(conns: seq<Connection>, k: Pin, x: Partial)
    ensures (k in Collect(conns).partials && x in Collect(conns).partials[k]) <==>
       (exists c | c in conns :: Route(c) == Routed(Ref(k, x.select), x.source, x.invert))
  {
    if conns != [] {
      var front, c := conns[..|conns| - 1], conns[|conns| - 1];
      CollectedExactly(front, k, x);
      assert forall e :: e in conns <==> e in front || e == c;
    }
  }

  /** Connections that drive the same part of the same sink agree on the driver. */
  ghost predicate OneDriver(conns: seq<Connection>) {
    forall b, c | b in conns && c in conns && Route(b).sink == Route(c).sink :: Route(b) == Route(c)
  }

  ghost predicate WellFormed(conns: seq<Connection>) {
    (forall c | c in conns :: WellDirected(c)) && OneDriver(conns)
  }

  /** What lowering one sink relies on. */
  ghost predicate WellDriven(k: Pin, xs: seq<Partial>) {
    && IsSink(k)
    && InversionsOfPorts(xs)
    && (forall x | x in xs && x.source.FromRef? :: IsDriver(x.source.ref.pin))
    && (forall x, y | x in xs && y in xs && x.select == y.select :: x == y)
  }

  lemma CollectedWellDriven(conns: seq<Connection>, k: Pin)
    requires WellFormed(conns) && k in Collect(conns).partials
    ensures WellDriven(k, Collect(conns).partials[k])
  {
    CollectLowerable(conns);
    var xs := Collect(conns).partials[k];
    assert IsSink(k) by {
      CollectedExactly(conns, k, xs[0]);
    }
    forall x | x in xs && x.source.FromRef?
      ensures IsDriver(x.source.ref.pin)
    {
      CollectedExactly(conns, k, x);
    }
    forall x, y | x in xs && y in xs && x.select == y.select
      ensures x == y
    {
      CollectedExactly(conns, k, x);
      CollectedExactly(conns, k, y);
    }
  }

  ghost predicate AllWellDriven(partials: map<Pin, seq<Partial>>) {
    forall k | k in partials :: WellDriven(k, partials[k])
  }

  lemma CollectedAllWellDriven(conns: seq<Connection>)
    requires WellFormed(conns)
    ensures AllWellDriven(Collect(conns).partials)
  {
    forall k | k in Collect(conns).partials
      ensures WellDriven(k, Collect(conns).partials[k])
    {
      CollectedWellDriven(conns, k);
    }
  }

  function SourceValue<V>(a: Algebra<V>, v: Pin -> V, s: Source): V {
    match s
    case FromRef(r) => RefValue(a, v, r)
    case FromConstant(t) => a.constant(t)
  }

  ghost predicate PartialHolds<V>(a: Algebra<V>, v: Pin -> V, k: Pin, x: Partial) {
    PartOf(a, v(k), x.select) == Maybe(a, x.invert, SourceValue(a, v, x.source))
  }

  ghost predicate PartialsHold<V>(a: Algebra<V>, v: Pin -> V, k: Pin, xs: seq<Partial>) {
    forall x | x in xs :: PartialHolds(a, v, k, x)
  }

  ghost predicate SinksHold<V>(a: Algebra<V>, v: Pin -> V, partials: map<Pin, seq<Partial>>, ks: set<Pin>) {
    forall k | k in ks && k in partials :: PartialsHold(a, v, k, partials[k])
  }

  lemma CollectMeaning<V(!new)>(a: Algebra<V>, v: Pin -> V, conns: seq<Connection>)
    requires Involutive(a)
    ensures AllHold(a, v, conns) <==> SinksHold(a, v, Collect(conns).partials, Collect(conns).partials.Keys)
  {
    var s := Collect(conns);
    forall c | c in conns
      ensures
        var r := Route(c);
        var x := Partial(r.sink.select, r.source, r.invert);
        r.sink.pin in s.partials && x in s.partials[r.sink.pin]
        && (Holds(a, v, c) <==> PartialHolds(a, v, r.sink.pin, x))
    {
      var r := Route(c);
      CollectedExactly(conns, r.sink.pin, Partial(r.sink.select, r.source, r.invert));
    }
    if AllHold(a, v, conns) {
      forall k, x | k in s.partials && x in s.partials[k]
        ensures PartialHolds(a, v, k, x)
      {
        CollectedExactly(conns, k, x);
      }
    }
  }

  // ----- Facts about emitting -----

  function Owner(b: Base): Pin {
    match b
    case PinBase(p) => p
    case NetBase(w) => w.sink
  }

  /** The left-hand sides used so far belong to the sinks lowered so far. */
  ghost predicate Fresh(d: Netlist, done: set<Pin>) {
    && (forall p | p in d.portMaps :: p in done || p.dir.Out?)
    && (forall l | l in d.assigns :: l.Part? && Owner(l.base) in done)
    && (forall w | w in d.nets :: w.sink in done)
  }

  /** As `Fresh`, while the parts `used` of sink `k` are already assigned through `wire`. */
  ghost predicate FreshInside(d: Netlist, done: set<Pin>, k: Pin, wire: Base, used: set<Select>) {
    && (forall p | p in d.portMaps :: p in done || p == k || p.dir.Out?)
    && (forall l | l in d.assigns ::
          && l.Part?
          && (Owner(l.base) in done || (Owner(l.base) == k && (l.base == wire ==> l.select in used))))
    && (forall w | w in d.nets :: w.sink in done || w.sink == k)
  }

  lemma PortMapOrAssignMeaning<V(!new)>(a: Algebra<V>, v: Pin -> V, n: Net -> V, d: Netlist,
                                  port: Operand, right: Operand, invert: bool)
    requires Involutive(a)
    requires Mappable(d, port) || Serialize(right) !in d.assigns
    ensures Satisfies(a, v, n, PortMapOrAssign(d, port, right, invert)) <==>
       Satisfies(a, v, n, d)
            && Eval(a, v, n, Serialize(right)) == Maybe(a, invert, Eval(a, v, n, Serialize(port)))
  {
    if Mappable(d, port) {
      PortMapAdded(a, v, n, d, port.ref.pin, Inverted(invert, Serialize(right)));
    } else {
      AssignAdded(a, v, n, d, Serialize(right), Inverted(invert, Serialize(port)));
    }
  }

  ghost predicate SlicesHold<V>(a: Algebra<V>, v: Pin -> V, n: Net -> V, wire: Base, xs: seq<Partial>) {
    forall x | x in xs ::
      PartOf(a, Eval(a, v, n, Bare(wire)), x.select) == Maybe(a, x.invert, SourceValue(a, v, x.source))
  }

  function Selects(xs: seq<Partial>): set<Select> {
    set x | x in xs :: x.select
  }

  lemma SlicesHoldSplit<V>(a: Algebra<V>, v: Pin -> V, n: Net -> V, wire: Base, front: seq<Partial>, x: Partial)
    ensures SlicesHold(a, v, n, wire, front + [x]) <==>
            SlicesHold(a, v, n, wire, front) && SlicesHold(a, v, n, wire, [x])
  {
    assert x in [x];
    assert forall y :: y in front + [x] <==> y in front || y == x;
  }

  /** One part whose select was not used yet. */
  lemma SliceMeaning<V(!new)>(a: Algebra<V>, v: Pin -> V, n: Net -> V, d: Netlist, done: set<Pin>, k: Pin,
                              wire: Base, used: set<Select>, x: Partial)
    requires Involutive(a) && IsSink(k) && (x.source.FromRef? ==> IsDriver(x.source.ref.pin))
    requires k !in done && Owner(wire) == k && FreshInside(d, done, k, wire, used) && x.select !in used
    ensures FreshInside(ConnectPartialSlice(d, k, wire, x), done, k, wire, used + {x.select})
    ensures ConnectPartialSlice(d, k, wire, x).nets == d.nets
    ensures Satisfies(a, v, n, ConnectPartialSlice(d, k, wire, x)) <==>
      Satisfies(a, v, n, d) && SlicesHold(a, v, n, wire, [x])
  {
    var port, right := OperandOf(x.source), OnText(Part(wire, x.select));
    assert Serialize(right) !in d.assigns;
    PortMapOrAssignMeaning(a, v, n, d, port, right, x.invert);
    assert Eval(a, v, n, Serialize(port)) == SourceValue(a, v, x.source);
    assert Eval(a, v, n, Serialize(right)) == PartOf(a, Eval(a, v, n, Bare(wire)), x.select);
    assert x in [x];
  }

  ghost predicate AllDifferent(xs: seq<Partial>) {
    forall i, j | 0 <= i < j < |xs| :: xs[i] != xs[j]
  }

  lemma LastPart(k: Pin, xs: seq<Partial>)
    requires xs != [] && WellDriven(k, xs) && AllDifferent(xs)
    ensures
      var front, x := xs[..|xs| - 1], xs[|xs| - 1];
      && WellDriven(k, front) && AllDifferent(front) && (x.source.FromRef? ==> IsDriver(x.source.ref.pin))
      && x.select !in Selects(front) && Selects(xs) == Selects(front) + {x.select}
  {
    var front, x := xs[..|xs| - 1], xs[|xs| - 1];
    assert xs == front + [x] && x in xs;
    assert forall y :: y in xs <==> y in front || y == x;
  }

  /** From `d` to `d'` exactly the parts `xs` were connected. */
  ghost predicate SlicesMeant<V>(a: Algebra<V>, v: Pin -> V, n: Net -> V, d: Netlist, d': Netlist,
                                 done: set<Pin>, k: Pin, wire: Base, xs: seq<Partial>) {
    && FreshInside(d', done, k, wire, Selects(xs))
    && d'.nets == d.nets
    && (Satisfies(a, v, n, d') <==> Satisfies(a, v, n, d) && SlicesHold(a, v, n, wire, xs))
  }

  lemma OneMoreSlice<V(!new)>(a: Algebra<V>, v: Pin -> V, n: Net -> V, d: Netlist, d': Netlist,
                              done: set<Pin>, k: Pin, wire: Base, front: seq<Partial>, x: Partial)
    requires Involutive(a) && IsSink(k) && (x.source.FromRef? ==> IsDriver(x.source.ref.pin))
    requires k !in done && Owner(wire) == k && x.select !in Selects(front)
    requires SlicesMeant(a, v, n, d, d', done, k, wire, front)
    requires Selects(front + [x]) == Selects(front) + {x.select}
    ensures SlicesMeant(a, v, n, d, ConnectPartialSlice(d', k, wire, x), done, k, wire, front + [x])
  {
    SliceMeaning(a, v, n, d', done, k, wire, Selects(front), x);
    SlicesHoldSplit(a, v, n, wire, front, x);
  }

  lemma {:induction false} ConnectSlicesMeaning<V(!new)>(a: Algebra<V>, v: Pin -> V, n: Net -> V, d: Netlist,
                                                   done: set<Pin>, k: Pin, wire: Base, xs: seq<Partial>)
    requires Involutive(a) && WellDriven(k, xs) && AllDifferent(xs)
    requires k !in done && Owner(wire) == k && FreshInside(d, done, k, wire, {})
    ensures SlicesMeant(a, v, n, d, ConnectSlices(d, k, wire, xs), done, k, wire, xs)
    decreases |xs|
  {
    if xs == [] {
      assert Selects([]) == {};
    } else {
      var front, x := xs[..|xs| - 1], xs[|xs| - 1];
      LastPart(k, xs);
      assert front + [x] == xs;
      ConnectSlicesMeaning(a, v, n, d, done, k, wire, front);
      OneMoreSlice(a, v, n, d, ConnectSlices(d, k, wire, front), done, k, wire, front, x);
    }
  }

  lemma WireForPartialPortMeaning<V(!new)>(a: Algebra<V>, v: Pin -> V, n: Net -> V, d: Netlist,
                                     done: set<Pin>, k: Pin, any: bool)
    requires k !in done && IsSink(k) && Fresh(d, done)
    ensures
      var d', wire := WireForPartialPort(d, k, any), WireBase(k, any);
      && FreshInside(d', done, k, wire, {})
      && d'.nets <= d.nets + {Wire(k), Inv(k)} && d.nets <= d'.nets
      && (Satisfies(a, v, n, d') <==>
            Satisfies(a, v, n, d) && v(k) == Eval(a, v, n, Bare(wire)))
      && (v(k) == Eval(a, v, n, Bare(wire)) <==> NetsFollowPins(v, n, d'.nets - d.nets))
  {
    if k.inst.Some? {
      PortMapAdded(a, v, n, d, k, Bare(NetBase(Wire(k))));
      assert Satisfies(a, v, n, WireForPartialPort(d, k, any)) <==>
        Satisfies(a, v, n, d.(portMaps := d.portMaps[k := Bare(NetBase(Wire(k)))]));
      assert WireForPartialPort(d, k, any).nets - d.nets == {Wire(k)};
    } else if any {
      AssignAdded(a, v, n, d, Bare(PinBase(k)), Bare(NetBase(Inv(k))));
      assert Satisfies(a, v, n, WireForPartialPort(d, k, any)) <==>
        Satisfies(a, v, n, d.(assigns := d.assigns[Bare(PinBase(k)) := Bare(NetBase(Inv(k)))]));
      assert WireForPartialPort(d, k, any).nets - d.nets == {Inv(k)};
    }
  }

  lemma DirectMeaning<V(!new)>(a: Algebra<V>, v: Pin -> V, n: Net -> V, d: Netlist, done: set<Pin>, k: Pin, x: Partial)
    requires Involutive(a) && WellDriven(k, [x]) && x.select == []
    requires k !in done && Fresh(d, done)
    ensures
      var d' := if k.inst.Some? then ConnectInternalUnsliced(d, k, x.source, x.invert)
                else ConnectExternalUnsliced(d, k, x.source, x.invert);
      && Fresh(d', done + {k})
      && d'.nets == d.nets
      && (Satisfies(a, v, n, d') <==> Satisfies(a, v, n, d) && PartialHolds(a, v, k, x))
  {
    assert x in [x];
    var target := x.source;
    var mapped := IsPlainOutput(target) && target.ref.pin in d.portMaps;
    var shown := if mapped then OnText(d.portMaps[target.ref.pin]) else OperandOf(target);
    assert Satisfies(a, v, n, d) ==> Eval(a, v, n, Serialize(shown)) == SourceValue(a, v, target);
    if k.inst.Some? {
      PortMapAdded(a, v, n, d, k, Inverted(x.invert, Serialize(shown)));
    } else {
      PortMapOrAssignMeaning(a, v, n, d, shown, OnText(Bare(PinBase(k))), x.invert);
    }
  }

  lemma EntryMeaning<V(!new)>(a: Algebra<V>, v: Pin -> V, n: Net -> V, d: Netlist, done: set<Pin>, k: Pin,
                              xs: seq<Partial>)
    requires Involutive(a) && WellDriven(k, xs)
    requires k !in done && Fresh(d, done)
    ensures
      var d' := ParsePartialConnEntry(d, k, xs);
      && Fresh(d', done + {k})
      && d.nets <= d'.nets
      && (Satisfies(a, v, n, d') <==>
            Satisfies(a, v, n, d) && PartialsHold(a, v, k, xs) && NetsFollowPins(v, n, d'.nets - d.nets))
  {
    DedupFacts(xs);
    var ys := Dedup(xs);
    if Direct(k, ys) {
      assert ys == [ys[0]] && ys[0] in ys;
      DirectMeaning(a, v, n, d, done, k, ys[0]);
      assert PartialsHold(a, v, k, xs) <==> PartialHolds(a, v, k, ys[0]);
    } else {
      var any := AnyInverted(ys);
      var wire := WireBase(k, any);
      WireForPartialPortMeaning(a, v, n, d, done, k, any);
      ConnectSlicesMeaning(a, v, n, WireForPartialPort(d, k, any), done, k, wire, ys);
      if v(k) == Eval(a, v, n, Bare(wire)) {
        assert SlicesHold(a, v, n, wire, ys) <==> PartialsHold(a, v, k, xs);
      }
    }
  }

  function Sinks(s: Pending, count: nat): set<Pin>
    requires count <= |s.order|
  {
    set k | k in s.order[..count]
  }

  lemma NextSink(s: Pending, count: nat)
    requires Consistent(s) && 0 < count <= |s.order|
    ensures
      var k := s.order[count - 1];
      k in s.partials && k !in Sinks(s, count - 1) && Sinks(s, count) == Sinks(s, count - 1) + {k}
  {
    var k := s.order[count - 1];
    assert k in s.order;
    assert s.order[..count] == s.order[..count - 1] + [k];
  }

  /** Exactly the sinks `done` are touched and meant. */
  ghost predicate Means<V>(a: Algebra<V>, v: Pin -> V, n: Net -> V, partials: map<Pin, seq<Partial>>, done: set<Pin>,
                           d: Netlist) {
    && Fresh(d, done)
    && (Satisfies(a, v, n, d) <==> SinksHold(a, v, partials, done) && NetsFollowPins(v, n, d.nets))
  }

  /** Lowering one more sink adds its connections and its net to the meaning of the netlist. */
  lemma MeaningGrows<V(!new)>(a: Algebra<V>, v: Pin -> V, n: Net -> V, d: Netlist, done: set<Pin>,
                              partials: map<Pin, seq<Partial>>, k: Pin)
    requires Involutive(a) && AllWellDriven(partials)
    requires k in partials && k !in done && Means(a, v, n, partials, done, d)
    ensures Means(a, v, n, partials, done + {k}, ParsePartialConnEntry(d, k, partials[k]))
  {
    EntryMeaning(a, v, n, d, done, k, partials[k]);
    var d' := ParsePartialConnEntry(d, k, partials[k]);
    assert NetsFollowPins(v, n, d'.nets) <==> NetsFollowPins(v, n, d.nets) && NetsFollowPins(v, n, d'.nets - d.nets);
    assert SinksHold(a, v, partials, done + {k}) <==>
      SinksHold(a, v, partials, done) && PartialsHold(a, v, k, partials[k]);
  }

  lemma NothingMeant<V>(a: Algebra<V>, v: Pin -> V, n: Net -> V, partials: map<Pin, seq<Partial>>)
    ensures Means(a, v, n, partials, {}, EMPTY_NETLIST)
  {
  }

  lemma {:induction false} PrefixMeaning<V(!new)>(a: Algebra<V>, v: Pin -> V, n: Net -> V, s: Pending, count: nat)
    requires Involutive(a) && Lowerable(s) && AllWellDriven(s.partials) && count <= |s.order|
    ensures Means(a, v, n, s.partials, Sinks(s, count), ParsePartialConns(s, count))
    decreases count
  {
    if count == 0 {
      assert Sinks(s, 0) == {};
      NothingMeant(a, v, n, s.partials);
    } else {
      PrefixMeaning(a, v, n, s, count - 1);
      NextSink(s, count);
      NextEntry(s, count - 1);
      MeaningGrows(a, v, n, ParsePartialConns(s, count - 1), Sinks(s, count - 1), s.partials, s.order[count - 1]);
    }
  }

  /** What holds of the empty netlist and is kept by lowering any of the sinks holds all along. */
  lemma {:induction false} PrefixKeeps(s: Pending, count: nat, inv: Netlist -> bool)
    requires Lowerable(s) && count <= |s.order| && inv(EMPTY_NETLIST)
    requires forall d, k | k in s.partials && inv(d) :: inv(ParsePartialConnEntry(d, k, s.partials[k]))
    ensures inv(ParsePartialConns(s, count))
    decreases count
  {
    if count > 0 {
      PrefixKeeps(s, count - 1, inv);
      NextEntry(s, count - 1);
    }
  }

  // ----- Which nets are declared -----

  /** The nets that lowering a sink declares. */
  function EntryNets(k: Pin, selects: seq<Partial>): set<Net>
    requires InversionsOfPorts(selects)
  {
    DedupFacts(selects);
    var xs := Dedup(selects);
    var wire := WireBase(k, AnyInverted(xs));
    if !Direct(k, xs) && wire.NetBase? then {wire.net} else {}
  }

  lemma EntryDeclares(d: Netlist, k: Pin, selects: seq<Partial>)
    requires InversionsOfPorts(selects)
    ensures ParsePartialConnEntry(d, k, selects).nets == d.nets + EntryNets(k, selects)
  {
    DedupFacts(selects);
    var xs := Dedup(selects);
    if !Direct(k, xs) {
      var any := AnyInverted(xs);
      SlicesDeclareNothing(WireForPartialPort(d, k, any), k, WireBase(k, any), xs);
    }
  }

  lemma {:induction false} SlicesDeclareNothing(d: Netlist, k: Pin, wire: Base, xs: seq<Partial>)
    ensures ConnectSlices(d, k, wire, xs).nets == d.nets
  {
    if xs != [] {
      SlicesDeclareNothing(d, k, wire, xs[..|xs| - 1]);
    }
  }

  ghost predicate AllInversionsOfPorts(partials: map<Pin, seq<Partial>>) {
    forall k | k in partials :: InversionsOfPorts(partials[k])
  }

  function NetsOf(partials: map<Pin, seq<Partial>>, ks: set<Pin>): set<Net>
    requires AllInversionsOfPorts(partials)
  {
    set k, w | k in ks && k in partials && w in EntryNets(k, partials[k]) :: w
  }

  lemma OneMoreDeclares(partials: map<Pin, seq<Partial>>, ks: set<Pin>, k: Pin)
    requires AllInversionsOfPorts(partials) && k in partials
    ensures NetsOf(partials, ks + {k}) == NetsOf(partials, ks) + EntryNets(k, partials[k])
  {
  }

  lemma {:induction false} PrefixDeclares(s: Pending, count: nat)
    requires Lowerable(s) && count <= |s.order|
    ensures ParsePartialConns(s, count).nets == NetsOf(s.partials, Sinks(s, count))
    decreases count
  {
    if count > 0 {
      var k, d := s.order[count - 1], ParsePartialConns(s, count - 1);
      PrefixDeclares(s, count - 1);
      NextSink(s, count);
      NextEntry(s, count - 1);
      EntryDeclares(d, k, s.partials[k]);
      OneMoreDeclares(s.partials, Sinks(s, count - 1), k);
    }
  }

  // ----- Main results -----

  lemma AllSinks(s: Pending)
    requires Consistent(s)
    ensures Sinks(s, |s.order|) == s.partials.Keys
  {
    assert s.order[..|s.order|] == s.order;
  }

  /**
   Pin and net values satisfy the lowered netlist exactly when every stored connection holds and
   each net has the value of its pin.
   */
  lemma StoredMeaning<V(!new)>(a: Algebra<V>, v: Pin -> V, n: Net -> V, s: Pending)
    requires Involutive(a) && Lowerable(s) && AllWellDriven(s.partials)
    ensures
      var d := ParsePartialConns(s, |s.order|);
      Satisfies(a, v, n, d) <==>
        SinksHold(a, v, s.partials, s.partials.Keys) && NetsFollowPins(v, n, d.nets)
  {
    PrefixMeaning(a, v, n, s, |s.order|);
    AllSinks(s);
  }

  /** The order in which sinks are lowered changes neither the nets that are declared nor what is meant. */
  lemma OrderIrrelevant<V(!new)>(a: Algebra<V>, v: Pin -> V, n: Net -> V, s: Pending, t: Pending)
    requires Involutive(a) && Lowerable(s) && Lowerable(t) && AllWellDriven(s.partials)
    requires s.partials == t.partials
    ensures
      var d, e := ParsePartialConns(s, |s.order|), ParsePartialConns(t, |t.order|);
      d.nets == e.nets && (Satisfies(a, v, n, d) <==> Satisfies(a, v, n, e))
  {
    StoredMeaning(a, v, n, s);
    StoredMeaning(a, v, n, t);
    AllSinks(s);
    AllSinks(t);
    PrefixDeclares(s, |s.order|);
    PrefixDeclares(t, |t.order|);
  }

  lemma LoweringPreservesMeaning<V(!new)>(a: Algebra<V>, v: Pin -> V, n: Net -> V, conns: seq<Connection>)
    requires Involutive(a) && WellFormed(conns)
    ensures Satisfies(a, v, n, Lower(conns)) <==>
            AllHold(a, v, conns) && NetsFollowPins(v, n, Lower(conns).nets)
  {
    var s := Collect(conns);
    CollectLowerable(conns);
    CollectedAllWellDriven(conns);
    StoredMeaning(a, v, n, s);
    CollectMeaning(a, v, conns);
  }

  function Follow<V>(v: Pin -> V): Net -> V {
    (w: Net) => v(w.sink)
  }

  /** The connections hold iff some net values satisfy the netlist, and those are then unique. */
  lemma LoweringExtendsUniquely<V(!new)>(a: Algebra<V>, v: Pin -> V, conns: seq<Connection>)
    requires Involutive(a) && WellFormed(conns)
    ensures AllHold(a, v, conns) <==> exists n: Net -> V :: Satisfies(a, v, n, Lower(conns))
    ensures forall m: Net -> V, n: Net -> V, w |
              Satisfies(a, v, m, Lower(conns)) && Satisfies(a, v, n, Lower(conns)) && w in Lower(conns).nets ::
              m(w) == n(w)
  {
    forall n: Net -> V
      ensures Satisfies(a, v, n, Lower(conns)) <==>
         AllHold(a, v, conns) && NetsFollowPins(v, n, Lower(conns).nets)
    {
      LoweringPreservesMeaning(a, v, n, conns);
    }
    if AllHold(a, v, conns) {
      assert NetsFollowPins(v, Follow(v), Lower(conns).nets);
      assert Satisfies(a, v, Follow(v), Lower(conns));
    }
  }
}
