/**
 The mutable form of the lowering state. Each method updates its maps in place and is proved
 against the functions of `SvLowering`, `SvCompaction` and `SvSerialization`.
 */
module SvDesignData {
  import opened Wrappers
  import opened Sequences
  import opened SvNetlist
  import opened SvLowering
  import opened SvCompaction
  import opened SvSerialization

  class DesignData {
    var nets: set<Net>
    var portMaps: map<Pin, Expr>
    var assignMap: map<Expr, Expr>
    var order: seq<Pin>
    var connsToPartials: map<Pin, seq<Partial>>
    var usedPorts: set<Pin>

    function Emitted(): Netlist
      reads this`nets, this`portMaps, this`assignMap
    {
      Netlist(nets, portMaps, assignMap)
    }

    function Stored(): Pending
      reads this`order, this`connsToPartials, this`usedPorts
    {
      Pending(order, connsToPartials, usedPorts)
    }

    constructor ()
      ensures Emitted() == EMPTY_NETLIST && Stored() == NOTHING_PENDING
    {
      nets, portMaps, assignMap := {}, map[], map[];
      order, connsToPartials, usedPorts := [], map[], {};
    }

    // ----- Collecting -----

    method Store(ref: Ref, source: Source, invert: bool)
      modifies this`order, this`connsToPartials, this`usedPorts
      ensures Stored() == StoreSel(old(Stored()), ref, source, invert)
    {
      if ref.pin !in connsToPartials {
        order := order + [ref.pin];
        connsToPartials := connsToPartials[ref.pin := []];
      }
      connsToPartials := connsToPartials[ref.pin := connsToPartials[ref.pin] + [Partial(ref.select, source, invert)]];
      if ref.pin.inst.Some? {
        usedPorts := usedPorts + {ref.pin};
      }
    }

    method HandlePortCon(source: Ref, target: Ref, invert: bool)
      modifies this`order, this`connsToPartials, this`usedPorts
      ensures Stored() == ParseConnection(old(Stored()), PortConnection(source, target, invert))
    {
      if (source.pin.inst.None? && source.pin.dir.Out?) || (source.pin.inst.Some? && source.pin.dir.In?) {
        Store(source, FromRef(target), invert);
      } else {
        Store(target, FromRef(source), invert);
      }
    }

    method Parse(c: Connection)
      modifies this`order, this`connsToPartials, this`usedPorts
      ensures Stored() == ParseConnection(old(Stored()), c)
    {
      match c
      case ConstantConnection(value, target) => Store(target, FromConstant(value), false);
      case PortConnection(source, other, invert) => HandlePortCon(source, other, invert);
    }

    // ----- Emitting -----

    method Connect(port: Operand, right: Operand, invert: bool)
      modifies this`portMaps, this`assignMap
      ensures Emitted() == PortMapOrAssign(old(Emitted()), port, right, invert)
    {
      if port.OnRef? && port.ref.pin.inst.Some? && port.ref.select == [] && port.ref.pin !in portMaps {
        portMaps := portMaps[port.ref.pin := Inverted(invert, Serialize(right))];
      } else {
        assignMap := assignMap[Serialize(right) := Inverted(invert, Serialize(port))];
      }
    }

    method ConnectInternal(sink: Pin, target: Source, invert: bool)
      modifies this`portMaps, this`assignMap
      ensures Emitted() == ConnectInternalUnsliced(old(Emitted()), sink, target, invert)
    {
      if !IsPlainOutput(target) {
        Connect(OnRef(Ref(sink, [])), OperandOf(target), invert);
        return;
      }
      var shown := if target.ref.pin in portMaps then portMaps[target.ref.pin] else Serialize(OperandOf(target));
      portMaps := portMaps[sink := Inverted(invert, shown)];
    }

    method ConnectExternal(sink: Pin, target: Source, invert: bool)
      modifies this`portMaps, this`assignMap
      ensures Emitted() == ConnectExternalUnsliced(old(Emitted()), sink, target, invert)
    {
      var name := OnText(Bare(PinBase(sink)));
      if IsPlainOutput(target) && target.ref.pin in portMaps {
        Connect(OnText(portMaps[target.ref.pin]), name, invert);
      } else {
        Connect(OperandOf(target), name, invert);
      }
    }

    method TryDirect(sink: Pin, xs: seq<Partial>) returns (done: bool)
      requires InversionsOfPorts(xs)
      modifies this`portMaps, this`assignMap
      ensures done == Direct(sink, xs)
      ensures Emitted() == if !done then old(Emitted())
                           else if sink.inst.Some?
                           then ConnectInternalUnsliced(old(Emitted()), sink, xs[0].source, xs[0].invert)
                           else ConnectExternalUnsliced(old(Emitted()), sink, xs[0].source, xs[0].invert)
    {
      if |xs| != 1 || xs[0].select != [] {
        return false;
      }
      var source, invert := xs[0].source, xs[0].invert;
      assert xs[0] in xs;
      if invert {
        if !(sink.dir.In? && (source.ref.pin.dir.Out? || source.ref.pin.inst.None?)) {
          return false;
        }
      }
      if sink.inst.Some? {
        ConnectInternal(sink, source, invert);
      } else {
        ConnectExternal(sink, source, invert);
      }
      return true;
    }

    method MakeWire(sink: Pin, anyInverted: bool) returns (wire: Base)
      modifies this`nets, this`portMaps, this`assignMap
      ensures wire == WireBase(sink, anyInverted)
      ensures Emitted() == WireForPartialPort(old(Emitted()), sink, anyInverted)
    {
      if sink.inst.None? && anyInverted {
        nets := nets + {Inv(sink)};
        assignMap := assignMap[Bare(PinBase(sink)) := Bare(NetBase(Inv(sink)))];
        return NetBase(Inv(sink));
      }
      if sink.inst.None? {
        return PinBase(sink);
      }
      nets := nets + {Wire(sink)};
      portMaps := portMaps[sink := Bare(NetBase(Wire(sink)))];
      return NetBase(Wire(sink));
    }

    method ConnectSlice(sink: Pin, wire: Base, x: Partial)
      modifies this`portMaps, this`assignMap
      ensures Emitted() == ConnectPartialSlice(old(Emitted()), sink, wire, x)
    {
      var slice := OnText(Part(wire, x.select));
      if (sink.inst.None? && sink.dir.Out?) || (sink.inst.Some? && sink.dir.In?) {
        Connect(OperandOf(x.source), slice, x.invert);
      } else {
        Connect(slice, OperandOf(x.source), x.invert);
      }
    }

    method EmitEntry(sink: Pin, selects: seq<Partial>)
      requires InversionsOfPorts(selects)
      modifies this`nets, this`portMaps, this`assignMap
      ensures Emitted() == ParsePartialConnEntry(old(Emitted()), sink, selects)
    {
      DedupFacts(selects);
      var xs := Deduplicate(selects);
      var done := TryDirect(sink, xs);
      if done {
        return;
      }
      var anyInverted := exists x | x in xs :: x.invert;
      var wire := MakeWire(sink, anyInverted);
      ghost var d := Emitted();
      for i := 0 to |xs|
        invariant Emitted() == ConnectSlices(d, sink, wire, xs[..i])
      {
        assert xs[..i + 1][..i] == xs[..i];
        ConnectSlice(sink, wire, xs[i]);
      }
      assert xs[..|xs|] == xs;
    }

    /** The first `count` sinks of `s` are emitted. */
    ghost predicate EmittedFirst(s: Pending, count: nat)
      reads this
    {
      && Stored() == s && Lowerable(s) && count <= |s.order|
      && Emitted() == ParsePartialConns(s, count)
    }

    method EmitNext(i: nat, ghost s: Pending)
      requires i < |order| && EmittedFirst(s, i)
      modifies this`nets, this`portMaps, this`assignMap
      ensures EmittedFirst(s, i + 1)
    {
      NextEntry(s, i);
      EmitEntry(order[i], connsToPartials[order[i]]);
    }

    method EmitAll()
      requires Lowerable(Stored()) && Emitted() == EMPTY_NETLIST
      modifies this`nets, this`portMaps, this`assignMap
      ensures EmittedFirst(old(Stored()), |order|)
      ensures Emitted() == ParsePartialConns(old(Stored()), |old(Stored()).order|)
    {
      ghost var s := Stored();
      assert EmittedFirst(s, 0);
      for i := 0 to |order|
        invariant EmittedFirst(s, i)
      {
        EmitNext(i, s);
      }
    }

    // ----- Compaction -----

    /** Replaces every port map expression that is exactly `net`. */
    method Redirect(net: Expr, name: Expr)
      modifies this`portMaps
      ensures portMaps == map p | p in old(portMaps) :: if old(portMaps)[p] == net then name else old(portMaps)[p]
    {
      var refs := set p | p in portMaps && portMaps[p] == net;
      while refs != {}
        invariant portMaps.Keys == old(portMaps).Keys
        invariant forall p | p in refs :: p in old(portMaps) && old(portMaps)[p] == net
        invariant forall p | p in portMaps ::
                    portMaps[p] == if old(portMaps)[p] == net && p !in refs then name else old(portMaps)[p]
        decreases refs
      {
        var p :| p in refs;
        portMaps := portMaps[p := name];
        refs := refs - {p};
      }
    }

    /** The conditions on one assign, in the source's order. */
    method IsPassthrough(l: Expr, top: set<Pin>) returns (b: bool)
      requires l in assignMap
      ensures b == Collapsible(Emitted(), top, l)
      ensures b <==> exists o, w :: Passthrough(Emitted(), top, o, w) && l == Bare(PinBase(o))
    {
      PassthroughByName(Emitted(), top, l);
      var r := assignMap[l];
      if !(l.Part? && l.base.PinBase? && l.select == [] && l.base.pin in top) {
        return false;
      }
      if !(r.Part? && r.base.NetBase? && r.select == [] && r.base.net in nets) {
        return false;
      }
      var asRight := set k | k in assignMap && assignMap[k] == r;
      if |asRight| != 1 || r in assignMap {
        return false;
      }
      return exists p | p in portMaps :: portMaps[p] == r;
    }

    method CollapseAssign(l: Expr)
      requires l in assignMap && assignMap[l].Part? && assignMap[l].base.NetBase?
      modifies this`nets, this`portMaps, this`assignMap
      ensures Emitted() == CollapseOne(old(Emitted()), l)
    {
      var net := assignMap[l];
      Redirect(net, l);
      assignMap := assignMap - {l};
      nets := nets - {net.base.net};
    }

    method CompactPassthroughNets(top: set<Pin>)
      modifies this`nets, this`portMaps, this`assignMap
      ensures Emitted() == Compacted(old(Emitted()), top)
    {
      ghost var d := Emitted();
      ghost var collapsed: set<Expr> := {};
      CollapseNone(d);
      var changed := true;
      while changed
        invariant AllCollapsible(d, top, collapsed) && Emitted() == Collapse(d, collapsed)
        invariant !changed ==> forall l | l in assignMap :: !Collapsible(Emitted(), top, l)
        decreases |assignMap|, changed
      {
        changed := false;
        var rest := assignMap.Keys;
        while rest != {}
          invariant rest <= assignMap.Keys && !changed
          invariant Emitted() == Collapse(d, collapsed)
          invariant forall l | l in assignMap && l !in rest :: !Collapsible(Emitted(), top, l)
          decreases rest
        {
          var l :| l in rest;
          rest := rest - {l};
          var passthrough := IsPassthrough(l, top);
          if passthrough {
            CollapsibleAfter(d, top, collapsed, l);
            CollapseOneMore(d, top, collapsed, l);
            CollapseAssign(l);
            collapsed := collapsed + {l};
            changed := true;
            break;
          }
        }
      }
      CollapsedAll(d, top, collapsed);
    }

    // ----- Defaults -----

    method FillDefaultValues(defaults: map<Pin, string>)
      modifies this`portMaps
      ensures Emitted() == FillDefaults(old(Emitted()), usedPorts, defaults)
    {
      var rest := defaults.Keys;
      ghost var given := map p | p in defaults && TakesDefault(p, usedPorts, defaults) :: Literal(defaults[p]);
      while rest != {}
        invariant rest <= defaults.Keys
        invariant portMaps.Keys == old(portMaps).Keys + (given.Keys - rest)
        invariant forall p | p in portMaps ::
                    portMaps[p] == if p in given && p !in rest then given[p] else old(portMaps)[p]
        decreases rest
      {
        var p :| p in rest;
        if p !in usedPorts {
          if p.inst.Some? && p.dir.In? {
            portMaps := portMaps[p := Literal(defaults[p])];
          }
        }
        rest := rest - {p};
      }
      assert portMaps == old(portMaps) + given;
    }
  }

  /** The whole sequence, on a fresh state. */
  method SerializeDesign(conns: seq<Connection>, top: set<Pin>, defaults: map<Pin, string>)
    returns (data: DesignData)
    ensures fresh(data)
    ensures data.Emitted() == Serialized(conns, top, defaults)
  {
    data := new DesignData();
    for i := 0 to |conns|
      invariant fresh(data)
      invariant data.Stored() == Collect(conns[..i]) && data.Emitted() == EMPTY_NETLIST
    {
      assert conns[..i + 1][..i] == conns[..i];
      data.Parse(conns[i]);
    }
    assert conns[..|conns|] == conns;
    CollectLowerable(conns);
    data.EmitAll();
    data.CompactPassthroughNets(top);
    data.FillDefaultValues(defaults);
  }
}
