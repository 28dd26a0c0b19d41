/**
 The form of a lowered netlist in terms of the connections alone: which nets are declared, which
 ports are mapped, what is assigned, and what default values add.
 */
module SvLoweredForm {
  import opened Wrappers
  import opened Sequences
  import opened SvNetlist
  import opened SvLowering
  import opened SvCompaction
  import opened SvSerialization

  /** A connection drives that part of sink `k`, or all of it. */
  predicate Drives(c: Connection, k: Pin, select: Select, invert: bool) {
    && IsSink(k)
    && match c
       case ConstantConnection(_, target) => target == Ref(k, select) && !invert
       case PortConnection(source, other, i) => (source == Ref(k, select) || other == Ref(k, select)) && invert == i
  }

  /** The driver of a connection is all of pin `p`. */
  predicate DrivenBy(c: Connection, p: Pin) {
    IsDriver(p) && c.PortConnection? && (c.source == Ref(p, []) || c.other == Ref(p, []))
  }

  ghost predicate DrivenInPart(conns: seq<Connection>, k: Pin) {
    exists c, select, i | c in conns && select != [] :: Drives(c, k, select, i)
  }

  ghost predicate DrivenInverted(conns: seq<Connection>, k: Pin) {
    exists c, select | c in conns :: Drives(c, k, select, true)
  }

  ghost predicate Driven(conns: seq<Connection>, k: Pin) {
    exists c, select, i | c in conns :: Drives(c, k, select, i)
  }

  /** A whole pin drives something that is assigned: an external port, or the net of a port in parts. */
  ghost predicate Feeds(conns: seq<Connection>, p: Pin) {
    exists c, k, select, i | c in conns && Drives(c, k, select, i) && DrivenBy(c, p) ::
      k.inst.None? || DrivenInPart(conns, k)
  }

  /** Something stored for the sink drives that part of it. */
  ghost predicate Stored(s: Pending, k: Pin, select: Select, i: bool) {
    k in s.partials && exists x | x in s.partials[k] :: x.select == select && x.invert == i
  }

  lemma DrivesIsStored(conns: seq<Connection>, c: Connection, k: Pin, select: Select, i: bool)
    requires WellFormed(conns) && c in conns && Drives(c, k, select, i)
    ensures Stored(Collect(conns), k, select, i)
  {
    CollectedExactly(conns, k, Partial(select, Route(c).source, i));
  }

  lemma StoredDrives(conns: seq<Connection>, k: Pin, x: Partial) returns (c: Connection)
    requires WellFormed(conns) && k in Collect(conns).partials && x in Collect(conns).partials[k]
    ensures c in conns && Drives(c, k, x.select, x.invert)
    ensures x.source.FromRef? && x.source.ref.select == [] ==> DrivenBy(c, x.source.ref.pin)
  {
    CollectedExactly(conns, k, x);
    c :| c in conns && Route(c) == Routed(Ref(k, x.select), x.source, x.invert);
    assert WellDirected(c);
  }

  ghost predicate HasPart(xs: seq<Partial>) {
    exists x | x in xs :: x.select != []
  }

  /** What is stored for a sink, in terms of the connections. */
  lemma StoredIs(conns: seq<Connection>, k: Pin)
    requires WellFormed(conns)
    ensures var s := Collect(conns);
            && (Driven(conns, k) <==> k in s.partials)
            && (DrivenInPart(conns, k) <==> k in s.partials && HasPart(s.partials[k]))
            && (DrivenInverted(conns, k) <==> k in s.partials && AnyInverted(s.partials[k]))
  {
    var s := Collect(conns);
    CollectLowerable(conns);
    forall c, select, i | c in conns && Drives(c, k, select, i)
      ensures Stored(s, k, select, i)
    {
      DrivesIsStored(conns, c, k, select, i);
    }
    if k in s.partials {
      var c := StoredDrives(conns, k, s.partials[k][0]);
      if x :| x in s.partials[k] && x.select != [] {
        var c' := StoredDrives(conns, k, x);
      }
      if x :| x in s.partials[k] && x.invert {
        var c' := StoredDrives(conns, k, x);
      }
    }
  }

  // ----- Nets -----

  /** A well-driven sink is connected directly iff it is driven whole only, and no external port inverted. */
  lemma DirectIff(k: Pin, xs: seq<Partial>)
    requires WellDriven(k, xs) && xs != [] && AllDifferent(xs)
    ensures Direct(k, xs) <==> !HasPart(xs) && (k.inst.Some? || !AnyInverted(xs))
  {
    assert xs[0] in xs;
    if |xs| > 1 {
      assert xs[1] in xs && xs[0] != xs[1];
    }
    if Direct(k, xs) {
      assert forall x | x in xs :: x == xs[0];
    }
  }

  lemma EntryNetsAre(k: Pin, xs: seq<Partial>, w: Net)
    requires WellDriven(k, xs) && xs != []
    ensures w in EntryNets(k, xs) <==>
       || (k.inst.Some? && HasPart(xs) && w == Wire(k))
       || (k.inst.None? && AnyInverted(xs) && w == Inv(k))
  {
    DedupFacts(xs);
    DirectIff(k, Dedup(xs));
  }

  /**
   A net is declared for every instance input that is driven in parts, and for every external
   output that is driven inverted, in part or whole. There are no others.
   */
  lemma NetsAre(conns: seq<Connection>, w: Net)
    requires WellFormed(conns)
    ensures w in Lower(conns).nets <==>
       match w
       case Wire(k) => k.inst.Some? && DrivenInPart(conns, k)
       case Inv(k) => k.inst.None? && DrivenInverted(conns, k)
  {
    var s, k := Collect(conns), w.sink;
    CollectLowerable(conns);
    CollectedAllWellDriven(conns);
    PrefixDeclares(s, |s.order|);
    AllSinks(s);
    forall q | q in s.partials
      ensures w in EntryNets(q, s.partials[q]) ==> q == k
    {
      EntryNetsAre(q, s.partials[q], w);
    }
    if k in s.partials {
      EntryNetsAre(k, s.partials[k], w);
    }
    StoredIs(conns, k);
  }

  // ----- Port maps -----

  /** Lowering sink `k` maps port `p`: itself, or a whole driver that it is assigned from. */
  ghost predicate MappedBy(k: Pin, xs: seq<Partial>, p: Pin) {
    && p.inst.Some?
    && (p == k || (FromRef(Ref(p, [])) in Drivers(xs) && (k.inst.None? || HasPart(xs))))
  }

  ghost function Drivers(xs: seq<Partial>): set<Source> {
    set x | x in xs :: x.source
  }

  lemma {:induction false} SlicesMap(d: Netlist, k: Pin, wire: Base, xs: seq<Partial>, p: Pin)
    requires IsSink(k)
    ensures p in ConnectSlices(d, k, wire, xs).portMaps <==>
       p in d.portMaps || (p.inst.Some? && FromRef(Ref(p, [])) in Drivers(xs))
  {
    if xs != [] {
      var front, x := xs[..|xs| - 1], xs[|xs| - 1];
      SlicesMap(d, k, wire, front, p);
      assert xs == front + [x];
      assert Drivers(xs) == Drivers(front) + {x.source};
    }
  }

  lemma EntryMaps(d: Netlist, k: Pin, xs: seq<Partial>, p: Pin)
    requires WellDriven(k, xs) && xs != []
    ensures p in ParsePartialConnEntry(d, k, xs).portMaps <==> p in d.portMaps || MappedBy(k, xs, p)
  {
    DedupFacts(xs);
    var ys := Dedup(xs);
    DirectIff(k, ys);
    assert Drivers(ys) == Drivers(xs);
    if Direct(k, ys) {
      assert Drivers(ys) == {ys[0].source};
    } else {
      var any := AnyInverted(ys);
      SlicesMap(WireForPartialPort(d, k, any), k, WireBase(k, any), ys, p);
    }
  }

  lemma {:induction false} PrefixMaps(s: Pending, count: nat, p: Pin)
    requires Lowerable(s) && AllWellDriven(s.partials) && count <= |s.order|
    ensures p in ParsePartialConns(s, count).portMaps <==>
       exists k | k in Sinks(s, count) :: k in s.partials && MappedBy(k, s.partials[k], p)
    decreases count
  {
    if count > 0 {
      var k := s.order[count - 1];
      PrefixMaps(s, count - 1, p);
      NextSink(s, count);
      NextEntry(s, count - 1);
      EntryMaps(ParsePartialConns(s, count - 1), k, s.partials[k], p);
    }
  }

  /**
   The mapped ports are the instance ports that some connection drives, and those that drive, whole,
   an external port or an instance input that is driven in parts.
   */
  lemma MappedPortsAre(conns: seq<Connection>, p: Pin)
    requires WellFormed(conns)
    ensures p in Lower(conns).portMaps <==> p.inst.Some? && (Driven(conns, p) || Feeds(conns, p))
  {
    var s := Collect(conns);
    CollectLowerable(conns);
    CollectedAllWellDriven(conns);
    PrefixMaps(s, |s.order|, p);
    AllSinks(s);
    StoredIs(conns, p);
    if k :| k in s.partials && p != k && MappedBy(k, s.partials[k], p) {
      MappedFeeds(conns, k, p);
    }
    if p.inst.Some? && Feeds(conns, p) {
      FeedsIsMapped(conns, p);
    }
  }

  lemma MappedFeeds(conns: seq<Connection>, k: Pin, p: Pin)
    requires WellFormed(conns) && k in Collect(conns).partials && p != k && MappedBy(k, Collect(conns).partials[k], p)
    ensures Feeds(conns, p)
  {
    var xs := Collect(conns).partials[k];
    var x :| x in xs && x.source == FromRef(Ref(p, []));
    var c := StoredDrives(conns, k, x);
    StoredIs(conns, k);
  }

  lemma FeedsIsMapped(conns: seq<Connection>, p: Pin)
    requires WellFormed(conns) && p.inst.Some? && Feeds(conns, p)
    ensures exists k | k in Collect(conns).partials :: MappedBy(k, Collect(conns).partials[k], p)
  {
    var c, k, select, i :| c in conns && Drives(c, k, select, i) && DrivenBy(c, p)
                           && (k.inst.None? || DrivenInPart(conns, k));
    StoredIs(conns, k);
    assert WellDirected(c);
    CollectedExactly(conns, k, Partial(select, FromRef(Ref(p, [])), i));
  }

  ghost predicate KeepsMaps(d: Netlist, d': Netlist) {
    forall p | p in d.portMaps :: p in d'.portMaps && d'.portMaps[p] == d.portMaps[p]
  }

  /** Lowering a sink keeps what is mapped already. */
  lemma EntryKeepsMaps(d: Netlist, k: Pin, xs: seq<Partial>)
    requires InversionsOfPorts(xs) && k !in d.portMaps
    ensures KeepsMaps(d, ParsePartialConnEntry(d, k, xs))
  {
    DedupFacts(xs);
    var ys := Dedup(xs);
    if !Direct(k, ys) {
      var any := AnyInverted(ys);
      SlicesKeepMaps(WireForPartialPort(d, k, any), k, WireBase(k, any), ys);
    }
  }

  lemma {:induction false} SlicesKeepMaps(d: Netlist, k: Pin, wire: Base, xs: seq<Partial>)
    ensures KeepsMaps(d, ConnectSlices(d, k, wire, xs))
  {
    if xs != [] {
      SlicesKeepMaps(d, k, wire, xs[..|xs| - 1]);
    }
  }

  /** A sink that was not lowered yet is not mapped: drivers are no sinks. */
  lemma NotMappedYet(s: Pending, count: nat, k: Pin)
    requires Lowerable(s) && AllWellDriven(s.partials) && count <= |s.order|
    requires k in s.partials && k !in Sinks(s, count)
    ensures k !in ParsePartialConns(s, count).portMaps
  {
    PrefixMaps(s, count, k);
    forall q | q in Sinks(s, count) && q in s.partials
      ensures !MappedBy(q, s.partials[q], k)
    {
      assert IsSink(k) && WellDriven(q, s.partials[q]);
    }
  }

  lemma StepKeepsMaps(s: Pending, i: nat)
    requires Lowerable(s) && AllWellDriven(s.partials) && i < |s.order|
    ensures KeepsMaps(ParsePartialConns(s, i), ParsePartialConns(s, i + 1))
  {
    NextSink(s, i + 1);
    NextEntry(s, i);
    NotMappedYet(s, i, s.order[i]);
    EntryKeepsMaps(ParsePartialConns(s, i), s.order[i], s.partials[s.order[i]]);
  }

  ghost predicate MappedTo(s: Pending, i: nat, p: Pin, e: Expr)
    requires Lowerable(s) && i <= |s.order|
  {
    (p, e) in ParsePartialConns(s, i).portMaps.Items
  }

  lemma StaysMapped(s: Pending, i: nat, p: Pin, e: Expr)
    requires Lowerable(s) && AllWellDriven(s.partials) && i < |s.order| && MappedTo(s, i, p, e)
    ensures MappedTo(s, i + 1, p, e)
  {
    StepKeepsMaps(s, i);
  }

  lemma {:induction false} KeptForever(inv: nat -> bool, i: nat, n: nat)
    requires i <= n && inv(i) && forall j: nat | j < n && inv(j) :: inv(j + 1)
    ensures inv(n)
    decreases n - i
  {
    if i < n {
      KeptForever(inv, i + 1, n);
    }
  }

  lemma FinallyMapped(s: Pending, i: nat, p: Pin, e: Expr)
    requires Lowerable(s) && AllWellDriven(s.partials) && i <= |s.order| && MappedTo(s, i, p, e)
    ensures MappedTo(s, |s.order|, p, e)
  {
    var inv := (j: nat) => Lowerable(s) && j <= |s.order| && MappedTo(s, j, p, e);
    forall j: nat | j < |s.order| && inv(j)
      ensures inv(j + 1)
    {
      StaysMapped(s, j, p, e);
    }
    KeptForever(inv, i, |s.order|);
  }

  lemma DirectInput(d: Netlist, k: Pin, x: Partial, src: Pin)
    requires k.inst.Some? && k.dir.In? && x == Partial([], FromRef(Ref(src, [])), x.invert)
    requires src.inst.Some? && src.dir.Out?
    ensures InversionsOfPorts([x])
    ensures
      var d' := ParsePartialConnEntry(d, k, [x]);
      k in d'.portMaps
      && d'.portMaps[k] == Inverted(x.invert, if src in d.portMaps then d.portMaps[src] else Bare(PinBase(src)))
  {
    DedupOfUnique([x]);
  }

  /** A driver that some sink before the `i`-th is assigned from. */
  ghost predicate MappedBefore(s: Pending, i: nat, p: Pin)
    requires i <= |s.order|
  {
    exists k | k in s.order[..i] && k in s.partials :: MappedBy(k, s.partials[k], p)
  }

  lemma MappedBeforeIff(s: Pending, i: nat, p: Pin)
    requires Lowerable(s) && AllWellDriven(s.partials) && i <= |s.order|
    ensures MappedBefore(s, i, p) <==> p in ParsePartialConns(s, i).portMaps
  {
    PrefixMaps(s, i, p);
    assert forall k :: k in Sinks(s, i) <==> k in s.order[..i];
  }

  /** What an input is mapped to whose driver is `shown` as that: inverted, if the connection is. */
  lemma DirectInputAt(s: Pending, i: nat, x: Partial, src: Pin)
    requires Lowerable(s) && AllWellDriven(s.partials) && i < |s.order|
    requires s.order[i] in s.partials && s.partials[s.order[i]] == [x]
    requires s.order[i].inst.Some? && s.order[i].dir.In? && src.inst.Some? && src.dir.Out?
    requires x == Partial([], FromRef(Ref(src, [])), x.invert)
    ensures
      var k, d, d' := s.order[i], ParsePartialConns(s, i), ParsePartialConns(s, |s.order|);
      k in d'.portMaps
      && (src in d.portMaps ==> src in d'.portMaps && d'.portMaps[k] == Inverted(x.invert, d'.portMaps[src]))
      && (src !in d.portMaps ==> d'.portMaps[k] == Inverted(x.invert, Bare(PinBase(src))))
  {
    NextEntry(s, i);
    DirectInput(ParsePartialConns(s, i), s.order[i], x, src);
    var d, k := ParsePartialConns(s, i), s.order[i];
    FinallyMapped(s, i + 1, k, Inverted(x.invert, if src in d.portMaps then d.portMaps[src] else Bare(PinBase(src))));
    if src in d.portMaps {
      FinallyMapped(s, i, src, d.portMaps[src]);
    }
  }

  /**
   An instance input that is driven only by one whole instance output is mapped to what that output
   is mapped to, if that was decided before, and else to the output itself. Inverted drivers are inverted.
   */
  lemma DirectInputsAre(conns: seq<Connection>, i: nat, src: Pin, invert: bool)
    requires WellFormed(conns) && i < |Collect(conns).order| && src.inst.Some?
    requires
      var s := Collect(conns);
      && s.order[i].inst.Some? && s.order[i] in s.partials
      && s.partials[s.order[i]] == [Partial([], FromRef(Ref(src, [])), invert)]
    ensures
      var k, maps := Collect(conns).order[i], Lower(conns).portMaps;
      && k in maps
      && if MappedBefore(Collect(conns), i, src)
         then src in maps && maps[k] == if invert then Not(maps[src]) else maps[src]
         else maps[k] == if invert then Not(Bare(PinBase(src))) else Bare(PinBase(src))
  {
    var s, x := Collect(conns), Partial([], FromRef(Ref(src, [])), invert);
    CollectLowerable(conns);
    CollectedAllWellDriven(conns);
    assert x in s.partials[s.order[i]];
    MappedBeforeIff(s, i, src);
    DirectInputAt(s, i, x, src);
  }

  // ----- Assigns -----

  /** A driven part of a sink, or an external output that takes the value of its net. */
  ghost predicate AssignedPart(s: Pending, l: Expr) {
    && l.Part?
    && (l.base.PinBase? ==> l.base.pin.inst.None?)
    && var k := Owner(l.base);
       || (exists i :: Stored(s, k, l.select, i))
       || (l == Bare(PinBase(k)) && exists select :: Stored(s, k, select, true))
  }

  ghost predicate AssignsParts(s: Pending, d: Netlist) {
    forall l | l in d.assigns :: AssignedPart(s, l)
  }

  lemma {:induction false} SlicesAssign(s: Pending, d: Netlist, k: Pin, wire: Base, xs: seq<Partial>)
    requires AssignsParts(s, d) && IsSink(k) && Owner(wire) == k && (wire.PinBase? ==> k.inst.None?)
    requires k in s.partials && forall x | x in xs :: x in s.partials[k]
    ensures AssignsParts(s, ConnectSlices(d, k, wire, xs))
  {
    if xs != [] {
      var front, x := xs[..|xs| - 1], xs[|xs| - 1];
      SlicesAssign(s, d, k, wire, front);
      assert x in xs && Stored(s, k, x.select, x.invert);
      assert AssignedPart(s, Part(wire, x.select));
    }
  }

  lemma UnslicedAssigns(s: Pending, d: Netlist, k: Pin, x: Partial)
    requires Consistent(s) && AssignsParts(s, d) && k in s.partials && x in s.partials[k]
    requires WellDriven(k, s.partials[k]) && x.select == [] && (k.inst.Some? ==> k !in d.portMaps)
    ensures AssignsParts(s, if k.inst.Some? then ConnectInternalUnsliced(d, k, x.source, x.invert)
                            else ConnectExternalUnsliced(d, k, x.source, x.invert))
  {
    if k.inst.None? {
      assert Stored(s, k, [], x.invert);
      assert AssignedPart(s, Bare(PinBase(k)));
    }
  }

  lemma EntryAssigns(s: Pending, d: Netlist, k: Pin)
    requires Lowerable(s) && AssignsParts(s, d) && k in s.partials
    requires WellDriven(k, s.partials[k]) && k !in d.portMaps
    ensures AssignsParts(s, ParsePartialConnEntry(d, k, s.partials[k]))
  {
    DedupFacts(s.partials[k]);
    var xs := Dedup(s.partials[k]);
    if Direct(k, xs) {
      assert xs[0] in xs;
      UnslicedAssigns(s, d, k, xs[0]);
    } else {
      var any := AnyInverted(xs);
      if k.inst.None? && any {
        var x :| x in xs && x.invert;
        assert Stored(s, k, x.select, true);
        assert AssignedPart(s, Bare(PinBase(k)));
      }
      assert AssignsParts(s, WireForPartialPort(d, k, any));
      SlicesAssign(s, WireForPartialPort(d, k, any), k, WireBase(k, any), xs);
    }
  }

  lemma {:induction false} PrefixAssigns(s: Pending, count: nat)
    requires Lowerable(s) && AllWellDriven(s.partials) && count <= |s.order|
    ensures AssignsParts(s, ParsePartialConns(s, count))
    decreases count
  {
    if count > 0 {
      var k, d := s.order[count - 1], ParsePartialConns(s, count - 1);
      PrefixAssigns(s, count - 1);
      NextSink(s, count);
      NextEntry(s, count - 1);
      PrefixMaps(s, count - 1, k);
      NotMappedYet(s, count - 1, k);
      EntryAssigns(s, d, k);
    }
  }

  /**
   Only external outputs and declared nets are assigned, and of them only parts that a connection
   drives, or a whole output that has a net because it is driven inverted.
   */
  lemma AssignedPartsAre(conns: seq<Connection>, l: Expr)
    requires WellFormed(conns) && l in Lower(conns).assigns
    ensures
      match l
      case Part(PinBase(o), select) =>
        && o.inst.None?
        && ((exists c, i | c in conns :: Drives(c, o, select, i)) || (select == [] && DrivenInverted(conns, o)))
      case Part(NetBase(w), select) =>
        w in Lower(conns).nets && exists c, i | c in conns :: Drives(c, w.sink, select, i)
      case _ => false
  {
    var s := Collect(conns);
    CollectLowerable(conns);
    CollectedAllWellDriven(conns);
    PrefixAssigns(s, |s.order|);
    LoweredIsClosed(conns);
    if l.base.NetBase? {
      assert Mentions(l, l.base.net);
    }
    assert AssignedPart(s, l);
    var k := Owner(l.base);
    if i :| Stored(s, k, l.select, i) {
      var x :| x in s.partials[k] && x.select == l.select && x.invert == i;
      var c := StoredDrives(conns, k, x);
    } else {
      StoredIs(conns, k);
    }
  }

  // ----- Default values -----

  /** What is rendered for the port: what the netlist has, or else the default of an unconnected input. */
  lemma RenderedPortsAre(conns: seq<Connection>, top: set<Pin>, defaults: map<Pin, string>, p: Pin)
    requires WellFormed(conns)
    ensures
      var lowered, rendered := Compacted(Lower(conns), top), Serialized(conns, top, defaults);
      && rendered.nets == lowered.nets && rendered.assigns == lowered.assigns
      && if p in defaults && p.inst.Some? && p.dir.In? && !Driven(conns, p)
         then p in rendered.portMaps && rendered.portMaps[p] == Literal(defaults[p])
         else (p in rendered.portMaps <==> p in lowered.portMaps)
              && (p in lowered.portMaps ==> rendered.portMaps[p] == lowered.portMaps[p])
  {
    UsedExactly(conns, p);
    StoredIs(conns, p);
    CollectLowerable(conns);
  }
}
