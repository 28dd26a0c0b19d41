/**
 The peephole pass `compact_passthrough_nets`, in closed form: which assigns it collapses, that the
 result does not depend on the order they are found in, and when pin values are preserved.
 */
module SvCompaction {
  import opened Wrappers
  import opened SvNetlist

  /** The conditions under which the pass collapses `assign l = net`. */
  predicate Collapsible(d: Netlist, top: set<Pin>, l: Expr) {
    && l in d.assigns
    && (l.Part? && l.base.PinBase? && l.select == [] && l.base.pin in top)
    && var r := d.assigns[l];
    && (r.Part? && r.base.NetBase? && r.select == [] && r.base.net in d.nets)
    && |set k | k in d.assigns && d.assigns[k] == r| == 1
    && r !in d.assigns
    && exists p | p in d.portMaps :: d.portMaps[p] == r
  }

  predicate AllCollapsible(d: Netlist, top: set<Pin>, ls: set<Expr>) {
    forall l | l in ls :: Collapsible(d, top, l)
  }

  function CollapsibleSet(d: Netlist, top: set<Pin>): set<Expr> {
    set l | l in d.assigns && Collapsible(d, top, l)
  }

  /** One round of the pass. */
  function CollapseOne(d: Netlist, l: Expr): Netlist
    requires l in d.assigns && d.assigns[l].Part? && d.assigns[l].base.NetBase?
  {
    Netlist(
      d.nets - {d.assigns[l].base.net},
      map p | p in d.portMaps :: if d.portMaps[p] == d.assigns[l] then l else d.portMaps[p],
      d.assigns - {l})
  }

  /** The port map expression after collapsing the assigns `ls`. */
  ghost function Renamed(d: Netlist, ls: set<Expr>, e: Expr): Expr {
    if l :| l in ls && l in d.assigns && d.assigns[l] == e then l else e
  }

  ghost function CollapsedNets(d: Netlist, ls: set<Expr>): set<Net> {
    set w | w in d.nets && exists l | l in ls && l in d.assigns :: d.assigns[l] == Bare(NetBase(w))
  }

  /** All assigns in `ls` collapsed at once. */
  ghost function Collapse(d: Netlist, ls: set<Expr>): Netlist {
    Netlist(
      d.nets - CollapsedNets(d, ls),
      map p | p in d.portMaps :: Renamed(d, ls, d.portMaps[p]),
      d.assigns - ls)
  }

  ghost function Compacted(d: Netlist, top: set<Pin>): Netlist {
    Collapse(d, CollapsibleSet(d, top))
  }

  lemma SingletonUnique<T>(s: set<T>, x: T, y: T)
    requires |s| == 1 && x in s && y in s
    ensures x == y
  {
    var rest := s - {x};
    assert |rest| == 0;
    assert y !in rest;
  }

  /** A collapsible net has one assign, so the renaming is determined. */
  lemma SoleAssign(d: Netlist, top: set<Pin>, l: Expr, k: Expr)
    requires Collapsible(d, top, l) && k in d.assigns && d.assigns[k] == d.assigns[l]
    ensures k == l
  {
    SingletonUnique((set m | m in d.assigns && d.assigns[m] == d.assigns[l]), l, k);
  }

  lemma RenamedIs(d: Netlist, top: set<Pin>, ls: set<Expr>, l: Expr)
    requires AllCollapsible(d, top, ls) && l in ls
    ensures Renamed(d, ls, d.assigns[l]) == l
  {
    assert Collapsible(d, top, l);
    var k :| k in ls && k in d.assigns && d.assigns[k] == d.assigns[l] && Renamed(d, ls, d.assigns[l]) == k;
    SoleAssign(d, top, l, k);
  }

  /** Collapsing neither enables nor disables any other collapse. */
  lemma CollapsibleAfter(d: Netlist, top: set<Pin>, ls: set<Expr>, l: Expr)
    requires AllCollapsible(d, top, ls)
    ensures Collapsible(Collapse(d, ls), top, l) <==> Collapsible(d, top, l) && l !in ls
  {
    var d' := Collapse(d, ls);
    if l in d.assigns && l !in ls {
      var r := d.assigns[l];
      var before := set k | k in d.assigns && d.assigns[k] == r;
      var after := set k | k in d'.assigns && d'.assigns[k] == r;
      forall k | k in before
        ensures k in after
      {
        if k in ls {
          SoleAssign(d, top, k, l);
        }
      }
      assert before == after;
      if r.Part? && r.base.NetBase? && r.select == [] {
        if r.base.net in CollapsedNets(d, ls) {
          var k :| k in ls && d.assigns[k] == r;
          SoleAssign(d, top, k, l);
        }
        forall p | p in d.portMaps
          ensures d.portMaps[p] == r <==> d'.portMaps[p] == r
        {
          RenamedNet(d, top, ls, l, d.portMaps[p]);
        }
        forall k | k in ls
          ensures k != r
        {
          assert Collapsible(d, top, k);
        }
        assert r in d.assigns <==> r in d'.assigns;
      }
    }
  }

  lemma RenamedNet(d: Netlist, top: set<Pin>, ls: set<Expr>, l: Expr, e: Expr)
    requires AllCollapsible(d, top, ls)
    requires l in d.assigns && l !in ls && d.assigns[l].Part? && d.assigns[l].base.NetBase?
    ensures e == d.assigns[l] <==> Renamed(d, ls, e) == d.assigns[l]
  {
    if k :| k in ls && k in d.assigns && d.assigns[k] == e {
      RenamedIs(d, top, ls, k);
      assert Collapsible(d, top, k);
      if e == d.assigns[l] {
        SoleAssign(d, top, k, l);
      }
    }
  }

  /** Rounds accumulate: collapsing one more assign after `ls` is collapsing `ls + {l}`. */
  lemma CollapseOneMore(d: Netlist, top: set<Pin>, ls: set<Expr>, l: Expr)
    requires AllCollapsible(d, top, ls) && Collapsible(d, top, l) && l !in ls
    ensures l in Collapse(d, ls).assigns
    ensures CollapseOne(Collapse(d, ls), l) == Collapse(d, ls + {l})
  {
    var d', more := Collapse(d, ls), ls + {l};
    var r := d.assigns[l];
    forall p | p in d.portMaps
      ensures Renamed(d, more, d.portMaps[p]) == if d'.portMaps[p] == r then l else d'.portMaps[p]
    {
      var e := d.portMaps[p];
      RenamedNet(d, top, ls, l, e);
      if e == r {
        RenamedIs(d, top, more, l);
      } else if k :| k in ls && k in d.assigns && d.assigns[k] == e {
        RenamedIs(d, top, ls, k);
        RenamedIs(d, top, more, k);
      }
    }
    assert CollapseOne(d', l).portMaps == Collapse(d, more).portMaps;
    assert CollapsedNets(d, more) == CollapsedNets(d, ls) + {r.base.net};
  }

  lemma CollapseNone(d: Netlist)
    ensures Collapse(d, {}) == d
  {
    assert CollapsedNets(d, {}) == {};
    assert Collapse(d, {}).portMaps == d.portMaps;
    assert Collapse(d, {}).assigns == d.assigns;
  }

  /** When no assign is left to collapse, all that were collapsible have been. */
  lemma CollapsedAll(d: Netlist, top: set<Pin>, ls: set<Expr>)
    requires AllCollapsible(d, top, ls)
    requires forall l | l in Collapse(d, ls).assigns :: !Collapsible(Collapse(d, ls), top, l)
    ensures Collapse(d, ls) == Compacted(d, top)
  {
    forall l | l in d.assigns
      ensures l in ls <==> Collapsible(d, top, l)
    {
      CollapsibleAfter(d, top, ls, l);
    }
    assert ls == CollapsibleSet(d, top);
  }

  // ----- Main results -----

  /** The pass ends with nothing left to collapse. */
  lemma CompactedIsNormal(d: Netlist, top: set<Pin>, l: Expr)
    ensures !Collapsible(Compacted(d, top), top, l)
  {
    CollapsibleAfter(d, top, CollapsibleSet(d, top), l);
  }

  /** Net `w` is only ever mentioned by its bare name, which is all that the pass looks for. */
  // ----- What the pass does, without its steps -----

  /**
   Top port `o` is assigned net `w`, and so is nothing else; `w` is not assigned to, and some port is
   mapped to it.
   */
  ghost predicate Passthrough(d: Netlist, top: set<Pin>, o: Pin, w: Net) {
    var port, net := Part(PinBase(o), []), Part(NetBase(w), []);
    && o in top && w in d.nets
    && port in d.assigns && d.assigns[port] == net
    && (forall l | l in d.assigns && d.assigns[l] == net :: l == port)
    && net !in d.assigns
    && (exists p | p in d.portMaps :: d.portMaps[p] == net)
  }

  lemma PassthroughIff(d: Netlist, top: set<Pin>, o: Pin, w: Net)
    ensures Passthrough(d, top, o, w) <==>
            && Collapsible(d, top, Part(PinBase(o), []))
            && d.assigns[Part(PinBase(o), [])] == Part(NetBase(w), [])
  {
    var port, net := Part(PinBase(o), []), Part(NetBase(w), []);
    if Passthrough(d, top, o, w) {
      assert (set k | k in d.assigns && d.assigns[k] == net) == {port};
    }
    if Collapsible(d, top, port) && d.assigns[port] == net {
      forall l | l in d.assigns && d.assigns[l] == net
        ensures l == port
      {
        SoleAssign(d, top, port, l);
      }
    }
  }

  lemma CollapsibleIsPassthrough(d: Netlist, top: set<Pin>, l: Expr)
    requires l in CollapsibleSet(d, top)
    ensures l == Part(PinBase(l.base.pin), []) && d.assigns[l] == Part(NetBase(d.assigns[l].base.net), [])
    ensures Passthrough(d, top, l.base.pin, d.assigns[l].base.net)
  {
    PassthroughIff(d, top, l.base.pin, d.assigns[l].base.net);
  }

  lemma PassthroughByName(d: Netlist, top: set<Pin>, l: Expr)
    ensures Collapsible(d, top, l) <==> exists o, w :: Passthrough(d, top, o, w) && l == Bare(PinBase(o))
  {
    if l in CollapsibleSet(d, top) {
      CollapsibleIsPassthrough(d, top, l);
    }
    if o, w :| Passthrough(d, top, o, w) && l == Bare(PinBase(o)) {
      PassthroughIff(d, top, o, w);
    }
  }

  lemma CollapsedNetIff(d: Netlist, top: set<Pin>, w: Net)
    ensures w in CollapsedNets(d, CollapsibleSet(d, top)) <==> exists o :: Passthrough(d, top, o, w)
  {
    if w in CollapsedNets(d, CollapsibleSet(d, top)) {
      var l := AssignOf(d, top, w);
      PassthroughIff(d, top, l.base.pin, w);
      assert l == Part(PinBase(l.base.pin), []);
    }
    if o :| Passthrough(d, top, o, w) {
      PassthroughIff(d, top, o, w);
      assert Part(PinBase(o), []) in CollapsibleSet(d, top);
    }
  }

  /** Exactly the nets between a port map and a top port go. */
  lemma CompactedNets(d: Netlist, top: set<Pin>)
    ensures forall w :: w in Compacted(d, top).nets <==> w in d.nets && forall o :: !Passthrough(d, top, o, w)
  {
    forall w
      ensures w in Compacted(d, top).nets <==> w in d.nets && forall o :: !Passthrough(d, top, o, w)
    {
      CollapsedNetIff(d, top, w);
    }
  }

  /** With each of them the assign of its port goes, and no other changes. */
  lemma CompactedAssigns(d: Netlist, top: set<Pin>)
    ensures forall l :: l in Compacted(d, top).assigns <==>
              && l in d.assigns
              && forall o, w | Passthrough(d, top, o, w) :: l != Part(PinBase(o), [])
    ensures forall l | l in Compacted(d, top).assigns :: Compacted(d, top).assigns[l] == d.assigns[l]
  {
    forall l
      ensures l in Compacted(d, top).assigns <==>
              l in d.assigns && forall o, w | Passthrough(d, top, o, w) :: l != Part(PinBase(o), [])
    {
      if l in CollapsibleSet(d, top) {
        CollapsibleIsPassthrough(d, top, l);
      }
      if o, w :| Passthrough(d, top, o, w) && l == Part(PinBase(o), []) {
        PassthroughIff(d, top, o, w);
      }
    }
  }

  /** Ports mapped to such a net are mapped to the top port, and no other port map changes. */
  lemma CompactedPortMaps(d: Netlist, top: set<Pin>)
    ensures Compacted(d, top).portMaps.Keys == d.portMaps.Keys
    ensures forall p, o, w | p in d.portMaps && Passthrough(d, top, o, w) && d.portMaps[p] == Part(NetBase(w), []) ::
              Compacted(d, top).portMaps[p] == Part(PinBase(o), [])
    ensures forall p | p in d.portMaps
                       && (forall o, w | Passthrough(d, top, o, w) :: d.portMaps[p] != Part(NetBase(w), [])) ::
              Compacted(d, top).portMaps[p] == d.portMaps[p]
  {
    var ls := CollapsibleSet(d, top);
    forall p, o, w | p in d.portMaps && Passthrough(d, top, o, w) && d.portMaps[p] == Part(NetBase(w), [])
      ensures Compacted(d, top).portMaps[p] == Part(PinBase(o), [])
    {
      PassthroughIff(d, top, o, w);
      RenamedIs(d, top, ls, Part(PinBase(o), []));
    }
    forall p | p in d.portMaps && (forall o, w | Passthrough(d, top, o, w) :: d.portMaps[p] != Part(NetBase(w), []))
      ensures Compacted(d, top).portMaps[p] == d.portMaps[p]
    {
      if l :| l in ls && l in d.assigns && d.assigns[l] == d.portMaps[p] {
        CollapsibleIsPassthrough(d, top, l);
      }
    }
  }

  /** No such net is left. */
  lemma NoPassthroughLeft(d: Netlist, top: set<Pin>, o: Pin, w: Net)
    ensures !Passthrough(Compacted(d, top), top, o, w)
  {
    CompactedIsNormal(d, top, Part(PinBase(o), []));
    PassthroughIff(Compacted(d, top), top, o, w);
  }

  // ----- What is still mentioned -----

  ghost predicate BareOnly(d: Netlist, w: Net) {
    && (forall p | p in d.portMaps && Mentions(d.portMaps[p], w) :: d.portMaps[p] == Bare(NetBase(w)))
    && (forall l | l in d.assigns && Mentions(d.assigns[l], w) :: d.assigns[l] == Bare(NetBase(w)))
    && (forall l | l in d.assigns && Mentions(l, w) :: l == Bare(NetBase(w)))
  }

  ghost predicate CollapsedBareOnly(d: Netlist, top: set<Pin>) {
    forall w | w in CollapsedNets(d, CollapsibleSet(d, top)) :: BareOnly(d, w)
  }

  /** The assign through which a net is collapsed. */
  ghost function AssignOf(d: Netlist, top: set<Pin>, w: Net): (l: Expr)
    requires w in CollapsedNets(d, CollapsibleSet(d, top))
    ensures Collapsible(d, top, l) && d.assigns[l] == Bare(NetBase(w))
  {
    var l :| l in CollapsibleSet(d, top) && d.assigns[l] == Bare(NetBase(w));
    l
  }

  lemma MapMentions(d: Netlist, top: set<Pin>, w: Net, p: Pin)
    requires w in CollapsedNets(d, CollapsibleSet(d, top)) && p in d.portMaps
    ensures Mentions(Compacted(d, top).portMaps[p], w) <==>
              Mentions(d.portMaps[p], w) && d.portMaps[p] != Bare(NetBase(w))
  {
    var ls := CollapsibleSet(d, top);
    RenamedIs(d, top, ls, AssignOf(d, top, w));
    if k :| k in ls && k in d.assigns && d.assigns[k] == d.portMaps[p] {
      RenamedIs(d, top, ls, k);
    }
  }

  lemma AssignMentions(d: Netlist, top: set<Pin>, w: Net, k: Expr)
    requires w in CollapsedNets(d, CollapsibleSet(d, top)) && k in d.assigns
    ensures Mentions(d.assigns[k], w) && d.assigns[k] != Bare(NetBase(w)) ==> k in Compacted(d, top).assigns
    ensures d.assigns[k] == Bare(NetBase(w)) ==> k !in Compacted(d, top).assigns
    ensures k != Bare(NetBase(w))
    ensures Mentions(k, w) ==> k in Compacted(d, top).assigns
  {
    var l := AssignOf(d, top, w);
    RenamedIs(d, top, CollapsibleSet(d, top), l);
    if d.assigns[k] == Bare(NetBase(w)) {
      SoleAssign(d, top, l, k);
    }
  }

  /** A collapsed net mentioned only by name is not mentioned any more. */
  lemma CollapsedUnmentioned(d: Netlist, top: set<Pin>, w: Net)
    requires w in CollapsedNets(d, CollapsibleSet(d, top))
    ensures BareOnly(d, w) <==> !MentionedIn(Compacted(d, top), w)
  {
    var d', r := Compacted(d, top), Bare(NetBase(w));
    if MentionedIn(d', w) && BareOnly(d, w) {
      if p :| p in d'.portMaps && Mentions(d'.portMaps[p], w) {
        MapMentions(d, top, w, p);
      } else {
        var k :| k in d'.assigns && (Mentions(k, w) || Mentions(d'.assigns[k], w));
        AssignMentions(d, top, w, k);
      }
    }
    if !BareOnly(d, w) {
      if p :| p in d.portMaps && Mentions(d.portMaps[p], w) && d.portMaps[p] != r {
        MapMentions(d, top, w, p);
        assert Mentions(d'.portMaps[p], w);
      } else {
        var k :| k in d.assigns && ((Mentions(k, w) && k != r) || (Mentions(d.assigns[k], w) && d.assigns[k] != r));
        AssignMentions(d, top, w, k);
        assert k in d'.assigns && d'.assigns[k] == d.assigns[k];
      }
    }
  }

  /**
   The pass leaves no reference to a net it removed exactly when every net it removes was
   mentioned only by its bare name.
   */
  lemma CompactedClosedIff(d: Netlist, top: set<Pin>)
    requires Closed(d)
    ensures Closed(Compacted(d, top)) <==> CollapsedBareOnly(d, top)
  {
    var ls := CollapsibleSet(d, top);
    var d' := Compacted(d, top);
    forall w | w in CollapsedNets(d, ls)
      ensures BareOnly(d, w) <==> !MentionedIn(d', w)
    {
      CollapsedUnmentioned(d, top, w);
    }
    forall w | MentionedIn(d', w)
      ensures MentionedIn(d, w)
    {
      if p :| p in d'.portMaps && Mentions(d'.portMaps[p], w) {
        if k :| k in ls && k in d.assigns && d.assigns[k] == d.portMaps[p] {
          RenamedIs(d, top, ls, k);
        }
        assert Mentions(d.portMaps[p], w);
      } else {
        var k :| k in d'.assigns && (Mentions(k, w) || Mentions(d'.assigns[k], w));
        assert k in d.assigns && d.assigns[k] == d'.assigns[k];
      }
    }
    if CollapsedBareOnly(d, top) {
      forall w | MentionedIn(d', w)
        ensures w in d'.nets
      {
        assert w in d.nets;
      }
    }
  }

  /** Net values in which each collapsed net takes the value of the port it was assigned to. */
  ghost function Restored<V>(d: Netlist, top: set<Pin>, v: Pin -> V, n: Net -> V): Net -> V {
    (w: Net) =>
      if w in CollapsedNets(d, CollapsibleSet(d, top)) then v(AssignOf(d, top, w).base.pin) else n(w)
  }

  lemma RestoredEval<V(!new)>(a: Algebra<V>, d: Netlist, top: set<Pin>, v: Pin -> V, n: Net -> V, e: Expr)
    requires forall w | Mentions(e, w) :: w !in CollapsedNets(d, CollapsibleSet(d, top))
    ensures Eval(a, v, Restored(d, top, v, n), e) == Eval(a, v, n, e)
  {
    EvalAgrees(a, v, Restored(d, top, v, n), n, e);
  }

  /** An expression that mentions a collapsed net is that net's bare name. */
  lemma MentionsCollapsed(d: Netlist, top: set<Pin>, e: Expr, w: Net)
    requires CollapsedBareOnly(d, top) && w in CollapsedNets(d, CollapsibleSet(d, top)) && Mentions(e, w)
    ensures (exists p :: p in d.portMaps && d.portMaps[p] == e) ==> e == d.assigns[AssignOf(d, top, w)]
    ensures (exists l :: l in d.assigns && d.assigns[l] == e) ==> e == d.assigns[AssignOf(d, top, w)]
    ensures e !in d.assigns
  {
    assert BareOnly(d, w);
  }

  lemma CompactionKeeps<V(!new)>(a: Algebra<V>, v: Pin -> V, n: Net -> V, d: Netlist, top: set<Pin>)
    requires Satisfies(a, v, n, d)
    ensures Satisfies(a, v, n, Compacted(d, top))
  {
    var ls := CollapsibleSet(d, top);
    var d' := Compacted(d, top);
    forall p | p in d'.portMaps
      ensures v(p) == Eval(a, v, n, d'.portMaps[p])
    {
      if l :| l in ls && l in d.assigns && d.assigns[l] == d.portMaps[p] {
        RenamedIs(d, top, ls, l);
      }
    }
  }

  lemma CompactionReflects<V(!new)>(a: Algebra<V>, v: Pin -> V, n: Net -> V, d: Netlist, top: set<Pin>)
    requires CollapsedBareOnly(d, top)
    requires Satisfies(a, v, n, Compacted(d, top))
    ensures Satisfies(a, v, Restored(d, top, v, n), d)
  {
    var ls := CollapsibleSet(d, top);
    var gone := CollapsedNets(d, ls);
    var d' := Compacted(d, top);
    var m := Restored(d, top, v, n);
    forall p | p in d.portMaps
      ensures v(p) == Eval(a, v, m, d.portMaps[p])
    {
      var e := d.portMaps[p];
      assert v(p) == Eval(a, v, n, d'.portMaps[p]);
      if w :| w in gone && Mentions(e, w) {
        MentionsCollapsed(d, top, e, w);
        RenamedIs(d, top, ls, AssignOf(d, top, w));
      } else {
        RestoredEval(a, d, top, v, n, e);
        if l :| l in ls && l in d.assigns && d.assigns[l] == e {
          assert Mentions(e, e.base.net);
          assert false;
        }
      }
    }
    forall l | l in d.assigns
      ensures Eval(a, v, m, l) == Eval(a, v, m, d.assigns[l])
    {
      var e := d.assigns[l];
      if w :| w in gone && Mentions(l, w) {
        MentionsCollapsed(d, top, l, w);
        assert false;
      }
      RestoredEval(a, d, top, v, n, l);
      if w :| w in gone && Mentions(e, w) {
        MentionsCollapsed(d, top, e, w);
        SoleAssign(d, top, AssignOf(d, top, w), l);
      } else {
        RestoredEval(a, d, top, v, n, e);
        if l in ls {
          assert Mentions(e, e.base.net);
          assert false;
        }
        assert d'.assigns[l] == e;
      }
    }
  }

  /** Compaction changes neither which pin values are possible nor, up to removed nets, the net values. */
  lemma CompactionPreservesPins<V(!new)>(a: Algebra<V>, v: Pin -> V, d: Netlist, top: set<Pin>)
    requires CollapsedBareOnly(d, top)
    ensures (exists n: Net -> V :: Satisfies(a, v, n, d)) <==>
            (exists n: Net -> V :: Satisfies(a, v, n, Compacted(d, top)))
  {
    if n: Net -> V :| Satisfies(a, v, n, d) {
      CompactionKeeps(a, v, n, d, top);
    }
    if n: Net -> V :| Satisfies(a, v, n, Compacted(d, top)) {
      CompactionReflects(a, v, n, d, top);
    }
  }
}
