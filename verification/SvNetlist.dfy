/**
 Designs, netlists and what it means for pin values to satisfy them.

 Generated identifiers are not spelled out: a pin stands for the text of its (unique) name and a
 net for the text `inst__port` or `inv__port`, so equality of the values below is equality of the
 texts the backend compares.
 */
module SvNetlist {
  import opened Wrappers

  datatype Direction = In | Out | InOut

  /** A port of an instance, or (without one) an external port of the module being generated. */
  datatype Pin = Pin(inst: Option<string>, port: string, dir: Direction)

  datatype SelectOp = Field(name: string) | Bits(upper: string, lower: string)
  type Select = seq<SelectOp>

  /** A pin, or a part of one. */
  datatype Ref = Ref(pin: Pin, select: Select)

  datatype Connection =
    | ConstantConnection(value: string, target: Ref)
    | PortConnection(source: Ref, other: Ref, invert: bool)

  /** `Wire` collects the parts of an instance input, `Inv` an external output with inverted parts. */
  datatype Net = Wire(sink: Pin) | Inv(sink: Pin)

  datatype Base = PinBase(pin: Pin) | NetBase(net: Net)

  datatype Expr = Literal(text: string) | Part(base: Base, select: Select) | Not(arg: Expr)

  datatype Netlist = Netlist(nets: set<Net>, portMaps: map<Pin, Expr>, assigns: map<Expr, Expr>)

  /** An instance input or an external output: something that must be driven. */
  predicate IsSink(p: Pin) {
    if p.inst.None? then p.dir.Out? else p.dir.In?
  }

  /** An instance output or an external input: something that drives. */
  predicate IsDriver(p: Pin) {
    if p.inst.None? then p.dir.In? else p.dir.Out?
  }

  /** A driver on one side, a sink on the other. */
  predicate WellDirected(c: Connection) {
    match c
    case ConstantConnection(_, target) => IsSink(target.pin)
    case PortConnection(source, other, _) =>
      || (IsDriver(source.pin) && IsSink(other.pin))
      || (IsSink(source.pin) && IsDriver(other.pin))
  }

  // ----- Values -----

  /** The value domain: bitwise inversion, selection of a part, and the meaning of constants. */
  datatype Algebra<!V> = Algebra(invert: V -> V, part: (V, Select) -> V, constant: string -> V)

  ghost predicate Involutive<V(!new)>(a: Algebra<V>) {
    forall x :: a.invert(a.invert(x)) == x
  }

  function PartOf<V>(a: Algebra<V>, x: V, s: Select): V {
    if s == [] then x else a.part(x, s)
  }

  function Maybe<V>(a: Algebra<V>, invert: bool, x: V): V {
    if invert then a.invert(x) else x
  }

  function RefValue<V>(a: Algebra<V>, v: Pin -> V, r: Ref): V {
    PartOf(a, v(r.pin), r.select)
  }

  function Eval<V>(a: Algebra<V>, v: Pin -> V, n: Net -> V, e: Expr): V {
    match e
    case Literal(t) => a.constant(t)
    case Part(PinBase(p), s) => PartOf(a, v(p), s)
    case Part(NetBase(w), s) => PartOf(a, n(w), s)
    case Not(x) => a.invert(Eval(a, v, n, x))
  }

  /** Pin values satisfy a connection. */
  ghost predicate Holds<V>(a: Algebra<V>, v: Pin -> V, c: Connection) {
    match c
    case ConstantConnection(value, target) => RefValue(a, v, target) == a.constant(value)
    case PortConnection(source, other, invert) =>
      RefValue(a, v, other) == Maybe(a, invert, RefValue(a, v, source))
  }

  ghost predicate AllHold<V>(a: Algebra<V>, v: Pin -> V, conns: seq<Connection>) {
    forall c | c in conns :: Holds(a, v, c)
  }

  /** Pin and net values satisfy every port map and every assign of a netlist. */
  ghost predicate Satisfies<V>(a: Algebra<V>, v: Pin -> V, n: Net -> V, d: Netlist) {
    && (forall p | p in d.portMaps :: v(p) == Eval(a, v, n, d.portMaps[p]))
    && (forall l | l in d.assigns :: Eval(a, v, n, l) == Eval(a, v, n, d.assigns[l]))
  }

  /** Generated nets carry the value of the pin they were generated for. */
  ghost predicate NetsFollowPins<V>(v: Pin -> V, n: Net -> V, nets: set<Net>) {
    forall w | w in nets :: n(w) == v(w.sink)
  }

  // ----- Which nets a netlist mentions -----

  predicate Mentions(e: Expr, w: Net) {
    match e
    case Literal(_) => false
    case Part(b, _) => b == NetBase(w)
    case Not(x) => Mentions(x, w)
  }

  /** The text of a net (or pin) with nothing around it. */
  function Bare(b: Base): Expr { Part(b, []) }

  predicate MentionedIn(d: Netlist, w: Net) {
    || (exists p | p in d.portMaps :: Mentions(d.portMaps[p], w))
    || (exists l | l in d.assigns :: Mentions(l, w) || Mentions(d.assigns[l], w))
  }

  /** Every mentioned net is declared. */
  ghost predicate Closed(d: Netlist) {
    forall w :: MentionedIn(d, w) ==> w in d.nets
  }

  /** An expression's value depends only on the nets it mentions. */
  lemma EvalAgrees<V>(a: Algebra<V>, v: Pin -> V, n: Net -> V, m: Net -> V, e: Expr)
    requires forall w | Mentions(e, w) :: n(w) == m(w)
    ensures Eval(a, v, n, e) == Eval(a, v, m, e)
  {
    match e
    case Not(x) =>
      assert forall w | Mentions(x, w) :: Mentions(e, w);
      EvalAgrees(a, v, n, m, x);
    case Part(b, s) =>
      if b.NetBase? {
        assert Mentions(e, b.net);
      }
    case Literal(_) =>
  }

  lemma PortMapAdded<V>(a: Algebra<V>, v: Pin -> V, n: Net -> V, d: Netlist, p: Pin, e: Expr)
    requires p !in d.portMaps
    ensures Satisfies(a, v, n, d.(portMaps := d.portMaps[p := e]))
       <==> Satisfies(a, v, n, d) && v(p) == Eval(a, v, n, e)
  {
    var d' := d.(portMaps := d.portMaps[p := e]);
    if Satisfies(a, v, n, d') {
      assert d'.portMaps[p] == e;
      forall q | q in d.portMaps
        ensures v(q) == Eval(a, v, n, d.portMaps[q])
      {
        assert q in d'.portMaps && d'.portMaps[q] == d.portMaps[q];
      }
    }
  }

  lemma AssignAdded<V>(a: Algebra<V>, v: Pin -> V, n: Net -> V, d: Netlist, l: Expr, r: Expr)
    requires l !in d.assigns
    ensures Satisfies(a, v, n, d.(assigns := d.assigns[l := r]))
       <==> Satisfies(a, v, n, d) && Eval(a, v, n, l) == Eval(a, v, n, r)
  {
    var d' := d.(assigns := d.assigns[l := r]);
    if Satisfies(a, v, n, d') {
      assert d'.assigns[l] == r;
      forall k | k in d.assigns
        ensures Eval(a, v, n, k) == Eval(a, v, n, d.assigns[k])
      {
        assert k in d'.assigns && d'.assigns[k] == d.assigns[k];
      }
    }
  }
}
