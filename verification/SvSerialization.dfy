/**
 The passes of `SystemVerilogDesignBackend.serialize` that decide connectivity, in sequence:
 lowering, compaction, and default values for inputs nothing was connected to.
 */
module SvSerialization {
  import opened Wrappers
  import opened Sequences
  import opened SvNetlist
  import opened SvLowering
  import opened SvCompaction

  // ----- Lowered netlists declare every net they mention -----

  ghost predicate ClosedExpr(e: Expr, nets: set<Net>) {
    forall w | Mentions(e, w) :: w in nets
  }

  ghost predicate ClosedOver(d: Netlist, nets: set<Net>) {
    && (forall p | p in d.portMaps :: ClosedExpr(d.portMaps[p], nets))
    && (forall l | l in d.assigns :: ClosedExpr(l, nets) && ClosedExpr(d.assigns[l], nets))
  }

  lemma PortMapOrAssignClosed(d: Netlist, port: Operand, right: Operand, invert: bool)
    requires ClosedOver(d, d.nets)
    requires ClosedExpr(Serialize(port), d.nets) && ClosedExpr(Serialize(right), d.nets)
    ensures PortMapOrAssign(d, port, right, invert).nets == d.nets
    ensures ClosedOver(PortMapOrAssign(d, port, right, invert), d.nets)
  {
    assert ClosedExpr(Inverted(invert, Serialize(right)), d.nets);
    assert ClosedExpr(Inverted(invert, Serialize(port)), d.nets);
  }

  lemma {:induction false} ConnectSlicesClosed(d: Netlist, k: Pin, wire: Base, xs: seq<Partial>)
    requires ClosedOver(d, d.nets) && ClosedExpr(Bare(wire), d.nets)
    ensures ConnectSlices(d, k, wire, xs).nets == d.nets
    ensures ClosedOver(ConnectSlices(d, k, wire, xs), d.nets)
  {
    if xs != [] {
      var front, x := xs[..|xs| - 1], xs[|xs| - 1];
      ConnectSlicesClosed(d, k, wire, front);
      var slice := OnText(Part(wire, x.select));
      assert ClosedExpr(Serialize(slice), d.nets) by {
        assert forall w :: Mentions(Serialize(slice), w) ==> Mentions(Bare(wire), w);
      }
      var d' := ConnectSlices(d, k, wire, front);
      if IsSink(k) {
        PortMapOrAssignClosed(d', OperandOf(x.source), slice, x.invert);
      } else {
        PortMapOrAssignClosed(d', slice, OperandOf(x.source), x.invert);
      }
    }
  }

  lemma ClosedOverMore(d: Netlist, nets: set<Net>, more: set<Net>)
    requires ClosedOver(d, nets) && nets <= more
    ensures ClosedOver(d, more)
  {
  }

  lemma UnslicedClosed(d: Netlist, k: Pin, x: Partial)
    requires ClosedOver(d, d.nets)
    ensures
      var d' := if k.inst.Some? then ConnectInternalUnsliced(d, k, x.source, x.invert)
                else ConnectExternalUnsliced(d, k, x.source, x.invert);
      d'.nets == d.nets && ClosedOver(d', d.nets)
  {
    var mapped := IsPlainOutput(x.source) && x.source.ref.pin in d.portMaps;
    var shown := if mapped then OnText(d.portMaps[x.source.ref.pin]) else OperandOf(x.source);
    assert ClosedExpr(Inverted(x.invert, Serialize(shown)), d.nets);
    if k.inst.Some? {
      if !IsPlainOutput(x.source) {
        PortMapOrAssignClosed(d, OnRef(Ref(k, [])), shown, x.invert);
      }
    } else {
      PortMapOrAssignClosed(d, shown, OnText(Bare(PinBase(k))), x.invert);
    }
  }

  lemma EntryClosed(d: Netlist, k: Pin, selects: seq<Partial>)
    requires InversionsOfPorts(selects) && ClosedOver(d, d.nets)
    ensures
      var d' := ParsePartialConnEntry(d, k, selects);
      ClosedOver(d', d'.nets)
  {
    DedupFacts(selects);
    var xs := Dedup(selects);
    if Direct(k, xs) {
      UnslicedClosed(d, k, xs[0]);
    } else {
      var d' := WireForPartialPort(d, k, AnyInverted(xs));
      ClosedOverMore(d, d.nets, d'.nets);
      assert ClosedOver(d', d'.nets);
      ConnectSlicesClosed(d', k, WireBase(k, AnyInverted(xs)), xs);
    }
  }

  lemma PrefixClosed(s: Pending, count: nat)
    requires Lowerable(s) && count <= |s.order|
    ensures ClosedOver(ParsePartialConns(s, count), ParsePartialConns(s, count).nets)
  {
    var inv := (d: Netlist) => ClosedOver(d, d.nets);
    forall d, k | k in s.partials && inv(d)
      ensures inv(ParsePartialConnEntry(d, k, s.partials[k]))
    {
      EntryClosed(d, k, s.partials[k]);
    }
    PrefixKeeps(s, count, inv);
  }

  lemma LoweredIsClosed(conns: seq<Connection>)
    ensures Closed(Lower(conns))
  {
    CollectLowerable(conns);
    PrefixClosed(Collect(conns), |Collect(conns).order|);
  }

  // ----- When compaction has nothing to do -----

  /** A sink that is driven whole is driven by nothing else: parts never overlap the whole. */
  ghost predicate WholeOrParts(conns: seq<Connection>) {
    forall b, c | b in conns && c in conns
                  && Route(b).sink.pin == Route(c).sink.pin && Route(b).sink.select == [] ::
      Route(b) == Route(c)
  }

  predicate IsBareNet(e: Expr) {
    e.Part? && e.base.NetBase? && e.select == []
  }

  /** Whole nets are mapped only to the input they were generated for, and assigned only when inverted. */
  ghost predicate Tame(d: Netlist) {
    && (forall p | p in d.portMaps && IsBareNet(d.portMaps[p]) :: d.portMaps[p].base.net == Wire(p) && p.dir.In?)
    && (forall l | l in d.assigns && IsBareNet(d.assigns[l]) :: d.assigns[l].base.net.Inv?)
  }

  ghost predicate Unmixed(xs: seq<Partial>) {
    forall x, y | x in xs && y in xs && x.select == [] :: x == y
  }

  lemma {:induction false} ConnectSlicesTame(d: Netlist, k: Pin, wire: Base, xs: seq<Partial>)
    requires Tame(d) && IsSink(k)
    requires forall x | x in xs :: x.select != [] || x.invert || wire.PinBase?
    ensures Tame(ConnectSlices(d, k, wire, xs))
  {
    if xs != [] {
      var front, x := xs[..|xs| - 1], xs[|xs| - 1];
      assert x in xs && forall y :: y in front ==> y in xs;
      ConnectSlicesTame(d, k, wire, front);
    }
  }

  lemma UnmixedSingle(xs: seq<Partial>, x: Partial)
    requires Unmixed(xs) && x in xs && x.select == []
    requires AllDifferent(xs)
    ensures |xs| == 1
  {
    assert xs[0] in xs && xs[|xs| - 1] in xs;
    assert xs[0] == x && xs[|xs| - 1] == x;
  }

  lemma EntryTame(d: Netlist, k: Pin, selects: seq<Partial>)
    requires Tame(d) && WellDriven(k, selects) && Unmixed(selects)
    ensures Tame(ParsePartialConnEntry(d, k, selects))
  {
    DedupFacts(selects);
    var xs := Dedup(selects);
    if Direct(k, xs) {
      assert xs[0] in xs;
    } else {
      var any := AnyInverted(xs);
      forall x | x in xs
        ensures x.select != [] || x.invert || WireBase(k, any).PinBase?
      {
        if x.select == [] {
          UnmixedSingle(xs, x);
        }
      }
      ConnectSlicesTame(WireForPartialPort(d, k, any), k, WireBase(k, any), xs);
    }
  }

  lemma PrefixTame(s: Pending, count: nat)
    requires Lowerable(s) && count <= |s.order| && AllWellDriven(s.partials)
    requires forall k | k in s.partials :: Unmixed(s.partials[k])
    ensures Tame(ParsePartialConns(s, count))
  {
    forall d, k | k in s.partials && Tame(d)
      ensures Tame(ParsePartialConnEntry(d, k, s.partials[k]))
    {
      EntryTame(d, k, s.partials[k]);
    }
    PrefixKeeps(s, count, Tame);
  }

  /** If no sink is driven both whole and in parts, compaction leaves the lowered netlist alone. */
  lemma NothingToCompact(conns: seq<Connection>, top: set<Pin>)
    requires WellFormed(conns) && WholeOrParts(conns)
    ensures CollapsibleSet(Lower(conns), top) == {}
    ensures Compacted(Lower(conns), top) == Lower(conns)
  {
    var s := Collect(conns);
    CollectLowerable(conns);
    forall k | k in s.partials
      ensures WellDriven(k, s.partials[k]) && Unmixed(s.partials[k])
    {
      CollectedWellDriven(conns, k);
      forall x, y | x in s.partials[k] && y in s.partials[k] && x.select == []
        ensures x == y
      {
        CollectedExactly(conns, k, x);
        CollectedExactly(conns, k, y);
      }
    }
    PrefixTame(s, |s.order|);
    CollapseNone(Lower(conns));
  }

  // ----- Compacting a lowered netlist never helps -----

  /** `e` mentions the net, and is more than its name. */
  predicate Partly(e: Expr, w: Net) {
    Mentions(e, w) && e != Bare(NetBase(w))
  }

  /** The net is assigned to, or some text that no later sink replaces has more than its name. */
  predicate Spoken(d: Netlist, w: Net) {
    || Bare(NetBase(w)) in d.assigns
    || (exists l | l in d.assigns :: Partly(l, w))
    || (exists p | p in d.portMaps :: p.dir.Out? && Partly(d.portMaps[p], w))
  }

  predicate AllSpoken(d: Netlist) {
    forall w | w in d.nets :: Spoken(d, w)
  }

  /** Assigned names stay assigned and the port maps of outputs stay as they are. */
  ghost predicate Extends(d: Netlist, d': Netlist) {
    && d.assigns.Keys <= d'.assigns.Keys
    && forall p | p in d.portMaps && p.dir.Out? :: p in d'.portMaps && d'.portMaps[p] == d.portMaps[p]
  }

  lemma SpokenExtends(d: Netlist, d': Netlist, w: Net)
    requires Spoken(d, w) && Extends(d, d')
    ensures Spoken(d', w)
  {
    if l :| l in d.assigns && Partly(l, w) {
      assert l in d'.assigns;
    } else if p :| p in d.portMaps && p.dir.Out? && Partly(d.portMaps[p], w) {
      assert p in d'.portMaps && d'.portMaps[p] == d.portMaps[p];
    } else {
      assert Bare(NetBase(w)) in d'.assigns;
    }
  }

  lemma {:induction false} ConnectSlicesExtends(d: Netlist, k: Pin, wire: Base, xs: seq<Partial>)
    ensures Extends(d, ConnectSlices(d, k, wire, xs))
  {
    if xs != [] {
      ConnectSlicesExtends(d, k, wire, xs[..|xs| - 1]);
    }
  }

  lemma SliceSpeaks(d: Netlist, k: Pin, w: Net, x: Partial)
    requires IsSink(k) && (x.source.FromRef? ==> IsDriver(x.source.ref.pin))
    requires x.select != [] || x.invert
    ensures Spoken(ConnectPartialSlice(d, k, NetBase(w), x), w)
  {
    var d' := ConnectPartialSlice(d, k, NetBase(w), x);
    var port, e := OperandOf(x.source), Part(NetBase(w), x.select);
    assert e.select == x.select && Mentions(e, w) && Mentions(Inverted(x.invert, e), w);
    if Mappable(d, port) {
      assert Inverted(x.invert, e) != Bare(NetBase(w)) by {
        assert x.invert || Bare(NetBase(w)).select != e.select;
      }
      assert d'.portMaps[port.ref.pin] == Inverted(x.invert, e);
    } else {
      assert e in d'.assigns;
    }
  }

  lemma {:induction false} SlicesSpeak(d: Netlist, k: Pin, w: Net, xs: seq<Partial>, x: Partial)
    requires WellDriven(k, xs) && x in xs && (x.select != [] || x.invert)
    ensures Spoken(ConnectSlices(d, k, NetBase(w), xs), w)
  {
    var front, last := xs[..|xs| - 1], xs[|xs| - 1];
    assert xs == front + [last];
    var d' := ConnectSlices(d, k, NetBase(w), front);
    if x == last {
      SliceSpeaks(d', k, w, x);
    } else {
      SlicesSpeak(d, k, w, front, x);
      SpokenExtends(d', ConnectPartialSlice(d', k, NetBase(w), last), w);
    }
  }

  /** What is not connected directly has a part or an inversion. */
  lemma PartlyDriven(k: Pin, xs: seq<Partial>) returns (x: Partial)
    requires WellDriven(k, xs) && xs != [] && !Direct(k, xs)
    requires AllDifferent(xs)
    ensures x in xs && (x.select != [] || x.invert)
  {
    x := xs[0];
    if x.select == [] && |xs| > 1 {
      assert xs[0] in xs && xs[1] in xs;
      x := xs[1];
    }
  }

  lemma NewNetIsSpoken(d: Netlist, k: Pin, selects: seq<Partial>, w: Net)
    requires WellDriven(k, selects) && selects != [] && w in EntryNets(k, selects)
    ensures Spoken(ParsePartialConnEntry(d, k, selects), w)
  {
    DedupFacts(selects);
    var xs := Dedup(selects);
    assert selects[0] in xs;
    var x := PartlyDriven(k, xs);
    SlicesSpeak(WireForPartialPort(d, k, AnyInverted(xs)), k, w, xs, x);
  }

  lemma WireExtends(d: Netlist, k: Pin, any: bool)
    requires IsSink(k)
    ensures Extends(d, WireForPartialPort(d, k, any))
  {
  }

  /** One more sink: nothing relevant is replaced. */
  lemma EntryExtends(d: Netlist, k: Pin, selects: seq<Partial>)
    requires WellDriven(k, selects)
    ensures Extends(d, ParsePartialConnEntry(d, k, selects))
  {
    DedupFacts(selects);
    var xs := Dedup(selects);
    if !Direct(k, xs) {
      var any := AnyInverted(xs);
      WireExtends(d, k, any);
      ConnectSlicesExtends(WireForPartialPort(d, k, any), k, WireBase(k, any), xs);
    }
  }

  lemma EntrySpoken(d: Netlist, k: Pin, selects: seq<Partial>)
    requires WellDriven(k, selects) && selects != [] && AllSpoken(d)
    ensures AllSpoken(ParsePartialConnEntry(d, k, selects))
  {
    var d' := ParsePartialConnEntry(d, k, selects);
    EntryExtends(d, k, selects);
    EntryDeclares(d, k, selects);
    forall w | w in d'.nets
      ensures Spoken(d', w)
    {
      if w in d.nets {
        SpokenExtends(d, d', w);
      } else {
        NewNetIsSpoken(d, k, selects, w);
      }
    }
  }

  lemma PrefixSpoken(s: Pending, count: nat)
    requires Lowerable(s) && count <= |s.order| && AllWellDriven(s.partials)
    ensures AllSpoken(ParsePartialConns(s, count))
  {
    forall d, k | k in s.partials && AllSpoken(d)
      ensures AllSpoken(ParsePartialConnEntry(d, k, s.partials[k]))
    {
      EntrySpoken(d, k, s.partials[k]);
    }
    PrefixKeeps(s, count, AllSpoken);
  }

  /** A net of a lowered netlist that compaction collapses is always mentioned by more than its name. */
  lemma CollapsedIsPartlyMentioned(conns: seq<Connection>, top: set<Pin>, w: Net)
    requires WellFormed(conns) && w in CollapsedNets(Lower(conns), CollapsibleSet(Lower(conns), top))
    ensures !BareOnly(Lower(conns), w)
  {
    var s, d := Collect(conns), Lower(conns);
    CollectLowerable(conns);
    CollectedAllWellDriven(conns);
    PrefixSpoken(s, |s.order|);
    var l := AssignOf(d, top, w);
    assert Spoken(d, w) && Bare(NetBase(w)) !in d.assigns;
  }

  /**
   For connections alone compaction has either nothing to do, or it removes a net that is still
   referred to.
   */
  lemma CompactionSafeIff(conns: seq<Connection>, top: set<Pin>)
    requires WellFormed(conns)
    ensures Closed(Compacted(Lower(conns), top)) <==> CollapsibleSet(Lower(conns), top) == {}
    ensures Closed(Compacted(Lower(conns), top)) <==> Compacted(Lower(conns), top) == Lower(conns)
  {
    var d := Lower(conns);
    LoweredIsClosed(conns);
    CompactedClosedIff(d, top);
    CollapseNone(d);
    if l :| l in CollapsibleSet(d, top) {
      var w := d.assigns[l].base.net;
      assert w in CollapsedNets(d, CollapsibleSet(d, top));
      CollapsedIsPartlyMentioned(conns, top, w);
    }
  }

  lemma CollectTwo(o: Pin, b: Connection, c: Connection)
    requires o.inst.None? && Route(b).sink.pin == o && Route(c).sink.pin == o
    ensures
      var (r, q) := (Route(b), Route(c));
      Collect([b, c]) == Pending([o], map[o := [
        Partial(r.sink.select, r.source, r.invert), Partial(q.sink.select, q.source, q.invert)]], {})
  {
    var r, q := Route(b), Route(c);
    var x, y := Partial(r.sink.select, r.source, r.invert), Partial(q.sink.select, q.source, q.invert);
    assert [b, c][..1] == [b] && [b][..0] == [];
    var s := Collect([b]);
    assert Collect([]) == NOTHING_PENDING;
    assert s == StoreSel(NOTHING_PENDING, r.sink, r.source, r.invert);
    assert s.order == [o] && s.used == {};
    assert [] + [x] == [x] && [x] + [y] == [x, y];
    assert s.partials == map[o := [x]];
    assert Collect([b, c]).partials == map[o := [x, y]];
  }

  const OUTPUT := Pin(None, "o", Out)
  const WHOLE_DRIVER := Pin(Some("A"), "y", Out)
  const PART_DRIVER := Pin(Some("B"), "y", Out)
  const MIXED := [
    PortConnection(Ref(WHOLE_DRIVER, []), Ref(OUTPUT, []), false),
    PortConnection(Ref(PART_DRIVER, []), Ref(OUTPUT, [Bits("3", "0")]), true)]

  const WHOLE_PART := Partial([], FromRef(Ref(WHOLE_DRIVER, [])), false)
  const LOW_PART := Partial([Bits("3", "0")], FromRef(Ref(PART_DRIVER, [])), true)

  lemma ConnectTwo(d: Netlist, k: Pin, wire: Base, x: Partial, y: Partial)
    ensures ConnectSlices(d, k, wire, [x, y]) == ConnectPartialSlice(ConnectPartialSlice(d, k, wire, x), k, wire, y)
  {
    assert [x, y][..1] == [x] && [x][..0] == [];
    assert ConnectSlices(d, k, wire, []) == d;
    assert ConnectSlices(d, k, wire, [x]) == ConnectPartialSlice(d, k, wire, x);
  }

  lemma MixedSlices()
    ensures
      var wire := NetBase(Inv(OUTPUT));
      var d := Netlist({Inv(OUTPUT)}, map[], map[Bare(PinBase(OUTPUT)) := Bare(wire)]);
      ConnectSlices(d, OUTPUT, wire, [WHOLE_PART, LOW_PART]) == d.(portMaps :=
        map[WHOLE_DRIVER := Bare(wire), PART_DRIVER := Not(Part(wire, [Bits("3", "0")]))])
  {
    var wire := NetBase(Inv(OUTPUT));
    var d := Netlist({Inv(OUTPUT)}, map[], map[Bare(PinBase(OUTPUT)) := Bare(wire)]);
    ConnectTwo(d, OUTPUT, wire, WHOLE_PART, LOW_PART);
    assert ConnectPartialSlice(d, OUTPUT, wire, WHOLE_PART) == d.(portMaps := map[WHOLE_DRIVER := Bare(wire)]);
  }

  const MIXED_LOWERED := Netlist(
    {Inv(OUTPUT)},
    map[WHOLE_DRIVER := Bare(NetBase(Inv(OUTPUT))),
        PART_DRIVER := Not(Part(NetBase(Inv(OUTPUT)), [Bits("3", "0")]))],
    map[Bare(PinBase(OUTPUT)) := Bare(NetBase(Inv(OUTPUT)))])

  lemma MixedEntry()
    ensures
      var xs := [WHOLE_PART, LOW_PART];
      InversionsOfPorts(xs) && ParsePartialConnEntry(EMPTY_NETLIST, OUTPUT, xs) == MIXED_LOWERED
  {
    var o, xs := OUTPUT, [WHOLE_PART, LOW_PART];
    DedupOfUnique(xs);
    MixedSlices();
    assert LOW_PART in xs && AnyInverted(xs);
    assert WireForPartialPort(EMPTY_NETLIST, o, true)
        == Netlist({Inv(o)}, map[], map[Bare(PinBase(o)) := Bare(NetBase(Inv(o)))]);
  }

  lemma MixedLowered()
    ensures Lower(MIXED) == MIXED_LOWERED
  {
    CollectTwo(OUTPUT, MIXED[0], MIXED[1]);
    assert MIXED == [MIXED[0], MIXED[1]];
    CollectLowerable(MIXED);
    NextEntry(Collect(MIXED), 0);
    MixedEntry();
  }

  /**
   A design that does drive an output both whole and in parts: `o` from `A.y`, and bits `3:0` of
   `o` from the inversion of `B.y`. Lowering introduces `inv__o`; compaction renames its bare
   mention at `A.y` and drops the net, while `B.y` still refers to it. Then all pins can be one,
   although `o` is not the inversion of `B.y`.
   */
  lemma CompactionCanLoseAConnection()
    ensures WellFormed(MIXED) && !WholeOrParts(MIXED)
    ensures !Closed(Compacted(Lower(MIXED), {OUTPUT}))
    ensures Involutive(BITS) && !AllHold(BITS, ALL_ONES, MIXED)
    ensures Satisfies(BITS, ALL_ONES, ALL_ZEROS, Compacted(Lower(MIXED), {OUTPUT}))
  {
    MixedWellFormed();
    MixedCompacted();
    MixedInBits();
    CompactionSafeIff(MIXED, {OUTPUT});
  }

  lemma MixedWellFormed()
    ensures WellFormed(MIXED) && !WholeOrParts(MIXED)
  {
    assert MIXED[0] in MIXED && MIXED[1] in MIXED;
    assert Route(MIXED[0]).sink.pin == Route(MIXED[1]).sink.pin && Route(MIXED[0]) != Route(MIXED[1]);
  }

  lemma MixedInBits()
    ensures Involutive(BITS) && !AllHold(BITS, ALL_ONES, MIXED)
    ensures Satisfies(BITS, ALL_ONES, ALL_ZEROS, MIXED_COMPACTED)
  {
    assert MIXED[1] in MIXED && !Holds(BITS, ALL_ONES, MIXED[1]);
  }

  /** Single bits, of which every part is the whole. */
  const BITS: Algebra<bool> := Algebra((x: bool) => !x, (x: bool, _: Select) => x, (_: string) => true)
  const ALL_ONES: Pin -> bool := (_: Pin) => true
  const ALL_ZEROS: Net -> bool := (_: Net) => false

  const MIXED_COMPACTED := Netlist(
    {},
    map[WHOLE_DRIVER := Bare(PinBase(OUTPUT)),
        PART_DRIVER := Not(Part(NetBase(Inv(OUTPUT)), [Bits("3", "0")]))],
    map[])

  lemma MixedCompacted()
    ensures Bare(PinBase(OUTPUT)) in CollapsibleSet(Lower(MIXED), {OUTPUT})
    ensures Compacted(Lower(MIXED), {OUTPUT}) == MIXED_COMPACTED
  {
    MixedLowered();
    MixedCollapses();
    assert CollapsibleSet(MIXED_LOWERED, {OUTPUT}) == {Bare(PinBase(OUTPUT))};
    SoleCollapse(MIXED_LOWERED, {OUTPUT}, Bare(PinBase(OUTPUT)));
  }

  lemma SoleCollapse(d: Netlist, top: set<Pin>, l: Expr)
    requires CollapsibleSet(d, top) == {l}
    ensures l in d.assigns && d.assigns[l].Part? && d.assigns[l].base.NetBase?
    ensures Compacted(d, top) == CollapseOne(d, l)
  {
    assert l in CollapsibleSet(d, top);
    CollapseNone(d);
    CollapseOneMore(d, top, {}, l);
    assert {} + {l} == {l};
  }

  lemma MixedCollapses()
    ensures
      var name := Bare(PinBase(OUTPUT));
      Collapsible(MIXED_LOWERED, {OUTPUT}, name) && CollapseOne(MIXED_LOWERED, name) == MIXED_COMPACTED
  {
    var d, net, name := MIXED_LOWERED, Bare(NetBase(Inv(OUTPUT))), Bare(PinBase(OUTPUT));
    assert (set k | k in d.assigns && d.assigns[k] == net) == {name};
    assert d.portMaps[WHOLE_DRIVER] == net;
  }

  // ----- A collapse that does no harm -----

  const INPUT := Pin(Some("I"), "a", In)
  const LOW: Select := [Bits("3", "0")]

  /**
   An input is driven whole by `A.y` and, which adds nothing, in part by that part of `A.y`. An output
   is driven whole by `A.y`.
   */
  const REDUNDANT := [
    PortConnection(Ref(WHOLE_DRIVER, []), Ref(INPUT, []), false),
    PortConnection(Ref(WHOLE_DRIVER, LOW), Ref(INPUT, LOW), false),
    PortConnection(Ref(WHOLE_DRIVER, []), Ref(OUTPUT, []), false)]

  const WHOLE_OF_DRIVER := Partial([], FromRef(Ref(WHOLE_DRIVER, [])), false)
  const LOW_OF_DRIVER := Partial(LOW, FromRef(Ref(WHOLE_DRIVER, LOW)), false)

  lemma RedundantCollected()
    ensures Collect(REDUNDANT) == Pending(
              [INPUT, OUTPUT], map[INPUT := [WHOLE_OF_DRIVER, LOW_OF_DRIVER], OUTPUT := [WHOLE_OF_DRIVER]], {INPUT})
  {
    var cs := REDUNDANT;
    assert cs[..2][..1] == cs[..1] && cs[..1][..0] == [] && cs == cs[..2] + [cs[2]];
    assert Collect(cs[..1]) == StoreSel(NOTHING_PENDING, Ref(INPUT, []), FromRef(Ref(WHOLE_DRIVER, [])), false);
    assert [] + [WHOLE_OF_DRIVER] == [WHOLE_OF_DRIVER];
    assert Collect(cs[..1]) == Pending([INPUT], map[INPUT := [WHOLE_OF_DRIVER]], {INPUT});
    assert [WHOLE_OF_DRIVER] + [LOW_OF_DRIVER] == [WHOLE_OF_DRIVER, LOW_OF_DRIVER];
    assert Collect(cs[..2]) == Pending([INPUT], map[INPUT := [WHOLE_OF_DRIVER, LOW_OF_DRIVER]], {INPUT});
  }

  const REDUNDANT_INPUT := Netlist(
    {Wire(INPUT)},
    map[INPUT := Bare(NetBase(Wire(INPUT))), WHOLE_DRIVER := Bare(NetBase(Wire(INPUT)))],
    map[Part(NetBase(Wire(INPUT)), LOW) := Part(PinBase(WHOLE_DRIVER), LOW)])

  lemma RedundantInputEntry()
    ensures
      var xs := [WHOLE_OF_DRIVER, LOW_OF_DRIVER];
      InversionsOfPorts(xs) && ParsePartialConnEntry(EMPTY_NETLIST, INPUT, xs) == REDUNDANT_INPUT
  {
    var xs, wire := [WHOLE_OF_DRIVER, LOW_OF_DRIVER], NetBase(Wire(INPUT));
    DedupOfUnique(xs);
    assert !AnyInverted(xs) && !Direct(INPUT, xs);
    var d := WireForPartialPort(EMPTY_NETLIST, INPUT, false);
    assert d == Netlist({Wire(INPUT)}, map[INPUT := Bare(wire)], map[]);
    ConnectTwo(d, INPUT, wire, WHOLE_OF_DRIVER, LOW_OF_DRIVER);
    assert ConnectPartialSlice(d, INPUT, wire, WHOLE_OF_DRIVER)
        == d.(portMaps := map[INPUT := Bare(wire), WHOLE_DRIVER := Bare(wire)]);
  }

  lemma RedundantLowered()
    ensures Lower(REDUNDANT) ==
            REDUNDANT_INPUT.(assigns := REDUNDANT_INPUT.assigns[Bare(PinBase(OUTPUT)) := Bare(NetBase(Wire(INPUT)))])
  {
    var s := Collect(REDUNDANT);
    RedundantCollected();
    CollectLowerable(REDUNDANT);
    NextEntry(s, 0);
    NextEntry(s, 1);
    RedundantInputEntry();
    DedupOfUnique([WHOLE_OF_DRIVER]);
    assert Direct(OUTPUT, [WHOLE_OF_DRIVER]);
  }

  const REDUNDANT_COMPACTED := Netlist(
    {},
    map[INPUT := Bare(PinBase(OUTPUT)), WHOLE_DRIVER := Bare(PinBase(OUTPUT))],
    map[Part(NetBase(Wire(INPUT)), LOW) := Part(PinBase(WHOLE_DRIVER), LOW)])

  lemma RedundantCollapses()
    ensures
      var d, name := Lower(REDUNDANT), Bare(PinBase(OUTPUT));
      Collapsible(d, {OUTPUT}, name) && CollapseOne(d, name) == REDUNDANT_COMPACTED
  {
    RedundantLowered();
    var d, net, name := Lower(REDUNDANT), Bare(NetBase(Wire(INPUT))), Bare(PinBase(OUTPUT));
    assert (set k | k in d.assigns && d.assigns[k] == net) == {name};
    assert d.portMaps[INPUT] == net;
  }

  lemma RedundantCompacted()
    ensures CollapsibleSet(Lower(REDUNDANT), {OUTPUT}) == {Bare(PinBase(OUTPUT))}
    ensures Compacted(Lower(REDUNDANT), {OUTPUT}) == REDUNDANT_COMPACTED
  {
    RedundantCollapses();
    RedundantLowered();
    var d := Lower(REDUNDANT);
    assert CollapsibleSet(d, {OUTPUT}) == {Bare(PinBase(OUTPUT))};
    SoleCollapse(d, {OUTPUT}, Bare(PinBase(OUTPUT)));
  }

  lemma RedundantWellFormed()
    ensures WellFormed(REDUNDANT)
  {
  }

  /** The net that is collapsed is still referred to, but the pins can have the same values as before. */
  lemma CollapseCanBeHarmless<V(!new)>(a: Algebra<V>, v: Pin -> V)
    ensures WellFormed(REDUNDANT) && CollapsibleSet(Lower(REDUNDANT), {OUTPUT}) != {}
    ensures AllHold(a, v, REDUNDANT) <==>
            exists n: Net -> V :: Satisfies(a, v, n, Compacted(Lower(REDUNDANT), {OUTPUT}))
  {
    RedundantWellFormed();
    RedundantCompacted();
    RedundantMeaning(a, v);
  }

  lemma RedundantMeaning<V(!new)>(a: Algebra<V>, v: Pin -> V)
    ensures AllHold(a, v, REDUNDANT) <==> exists n: Net -> V :: Satisfies(a, v, n, REDUNDANT_COMPACTED)
  {
    var cs := REDUNDANT;
    if AllHold(a, v, cs) {
      assert cs[0] in cs && cs[1] in cs && cs[2] in cs;
      assert Satisfies(a, v, Follow(v), REDUNDANT_COMPACTED);
    }
    if n: Net -> V :| Satisfies(a, v, n, REDUNDANT_COMPACTED) {
      var maps := REDUNDANT_COMPACTED.portMaps;
      assert v(INPUT) == Eval(a, v, n, maps[INPUT]) && v(WHOLE_DRIVER) == Eval(a, v, n, maps[WHOLE_DRIVER]);
    }
  }

  // ----- Two drivers of one part -----

  lemma TwoConstantsEntry(o: Pin, first: string, second: string)
    requires o.inst.None? && o.dir.Out? && first != second
    ensures
      var xs := [Partial([], FromConstant(first), false), Partial([], FromConstant(second), false)];
      && InversionsOfPorts(xs)
      && ParsePartialConnEntry(EMPTY_NETLIST, o, xs) == Netlist({}, map[], map[Bare(PinBase(o)) := Literal(second)])
  {
    var x, y := Partial([], FromConstant(first), false), Partial([], FromConstant(second), false);
    DedupOfUnique([x, y]);
    assert !AnyInverted([x, y]);
    ConnectTwo(EMPTY_NETLIST, o, PinBase(o), x, y);
  }

  /** Of two drivers of the same part only the last assign is kept: one driver each is needed. */
  lemma SecondDriverReplacesFirst(o: Pin, first: string, second: string)
    requires o.inst.None? && o.dir.Out? && first != second
    ensures
      var conns := [ConstantConnection(first, Ref(o, [])), ConstantConnection(second, Ref(o, []))];
      Lower(conns) == Netlist({}, map[], map[Bare(PinBase(o)) := Literal(second)])
  {
    var c0, c1 := ConstantConnection(first, Ref(o, [])), ConstantConnection(second, Ref(o, []));
    TwoConstantsEntry(o, first, second);
    CollectTwo(o, c0, c1);
    CollectLowerable([c0, c1]);
    NextEntry(Collect([c0, c1]), 0);
  }

  // ----- Default values -----

  /** Defaults apply to instance inputs that no connection was stored for. */
  predicate TakesDefault(p: Pin, used: set<Pin>, defaults: map<Pin, string>) {
    p in defaults && p.inst.Some? && p.dir.In? && p !in used
  }

  function FillDefaults(d: Netlist, used: set<Pin>, defaults: map<Pin, string>): Netlist {
    d.(portMaps := d.portMaps + map p | p in defaults && TakesDefault(p, used, defaults) :: Literal(defaults[p]))
  }

  /** The netlist that is rendered. */
  ghost function Serialized(conns: seq<Connection>, top: set<Pin>, defaults: map<Pin, string>): Netlist {
    FillDefaults(Compacted(Lower(conns), top), Collect(conns).used, defaults)
  }

  ghost predicate DefaultsHold<V>(a: Algebra<V>, v: Pin -> V, used: set<Pin>, defaults: map<Pin, string>) {
    forall p | p in defaults && TakesDefault(p, used, defaults) :: v(p) == a.constant(defaults[p])
  }

  lemma UsedExactly(conns: seq<Connection>, p: Pin)
    ensures p in Collect(conns).used <==>
            p.inst.Some? && exists c | c in conns :: Route(c).sink.pin == p
  {
    var s := Collect(conns);
    CollectLowerable(conns);
    if p in s.partials {
      CollectedExactly(conns, p, s.partials[p][0]);
      assert s.partials[p][0] in s.partials[p];
    }
    if c :| c in conns && Route(c).sink.pin == p {
      var r := Route(c);
      CollectedExactly(conns, p, Partial(r.sink.select, r.source, r.invert));
    }
  }

  lemma DefaultsMeaning<V(!new)>(a: Algebra<V>, v: Pin -> V, n: Net -> V, d: Netlist,
                                 used: set<Pin>, defaults: map<Pin, string>)
    requires forall p | p in d.portMaps :: !TakesDefault(p, used, defaults)
    ensures Satisfies(a, v, n, FillDefaults(d, used, defaults)) <==>
            Satisfies(a, v, n, d) && DefaultsHold(a, v, used, defaults)
  {
    var d' := FillDefaults(d, used, defaults);
    if Satisfies(a, v, n, d') {
      forall p | p in d.portMaps
        ensures v(p) == Eval(a, v, n, d.portMaps[p])
      {
        assert p in d'.portMaps && d'.portMaps[p] == d.portMaps[p];
      }
      forall p | p in defaults && TakesDefault(p, used, defaults)
        ensures v(p) == a.constant(defaults[p])
      {
        assert d'.portMaps[p] == Literal(defaults[p]);
      }
    }
  }

  /** No lowered port map belongs to an input that takes its default. */
  lemma LoweredSparesDefaults(conns: seq<Connection>, p: Pin, defaults: map<Pin, string>)
    requires WellFormed(conns) && p in Lower(conns).portMaps
    ensures !TakesDefault(p, Collect(conns).used, defaults)
  {
    var s := Collect(conns);
    CollectLowerable(conns);
    CollectedAllWellDriven(conns);
    var a := Algebra((b: bool) => !b, (b: bool, _: Select) => b, (_: string) => true);
    PrefixMeaning(a, (_: Pin) => true, (_: Net) => true, s, |s.order|);
    if p in Sinks(s, |s.order|) {
      assert p in s.order;
    }
  }

  /**
   Pin values are possible for the rendered module exactly when all connections hold and every
   unconnected input has its default, as long as there is nothing to collapse.
   */
  lemma SerializationPreservesMeaning<V(!new)>(a: Algebra<V>, v: Pin -> V, n: Net -> V, conns: seq<Connection>,
                                               top: set<Pin>, defaults: map<Pin, string>)
    requires Involutive(a) && WellFormed(conns) && CollapsibleSet(Lower(conns), top) == {}
    ensures Satisfies(a, v, n, Serialized(conns, top, defaults)) <==>
            && AllHold(a, v, conns)
            && DefaultsHold(a, v, Collect(conns).used, defaults)
            && NetsFollowPins(v, n, Serialized(conns, top, defaults).nets)
  {
    CollapseNone(Lower(conns));
    LoweringPreservesMeaning(a, v, n, conns);
    forall p | p in Lower(conns).portMaps
      ensures !TakesDefault(p, Collect(conns).used, defaults)
    {
      LoweredSparesDefaults(conns, p, defaults);
    }
    DefaultsMeaning(a, v, n, Lower(conns), Collect(conns).used, defaults);
  }

  /** Otherwise, and only then, the rendered module refers to a net that it does not declare. */
  lemma SerializedClosedIff(conns: seq<Connection>, top: set<Pin>, defaults: map<Pin, string>)
    requires WellFormed(conns)
    ensures Closed(Serialized(conns, top, defaults)) <==> CollapsibleSet(Lower(conns), top) == {}
  {
    CompactionSafeIff(conns, top);
    var d, used := Compacted(Lower(conns), top), Collect(conns).used;
    var d' := FillDefaults(d, used, defaults);
    forall w
      ensures MentionedIn(d, w) <==> MentionedIn(d', w)
    {
      if p :| p in d.portMaps && Mentions(d.portMaps[p], w) {
        LoweredSparesDefaults(conns, p, defaults);
        assert p in d'.portMaps && d'.portMaps[p] == d.portMaps[p];
      }
      if p :| p in d'.portMaps && Mentions(d'.portMaps[p], w) {
        assert p in d.portMaps && d.portMaps[p] == d'.portMaps[p];
      }
    }
  }
}
