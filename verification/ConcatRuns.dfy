/**
 Merging of adjacent selects inside a concatenation (`_ConcatRun`, `_flush_concat_run`,
 `_concat_operand_sources`): `{a[3], a[2:1], a[0]}` becomes the single select `a[3:0]`.

 Operands are read as the bits they list, in order (section 11.4.12 of IEEE 1800).
 */
module ConcatRuns {
  import opened Sequences
  import opened Wrappers

  /** A select `base[start:end]`; an index select has `start == end`. */
  datatype Span = Span(base: string, start: int, end: int)

  datatype Operand = Select(span: Span) | Other(text: string)

  datatype Bit = Indexed(base: string, index: int) | Opaque(text: string)

  function Direction(from: int, to: int): int {
    if from < to then 1 else if from > to then -1 else 0
  }

  function Distance(from: int, to: int): nat {
    if from < to then to - from else from - to
  }

  /** The indices of a select, in the order in which it lists them. */
  function Walk(base: string, from: int, to: int): (bits: seq<Bit>)
    ensures |bits| == Distance(from, to) + 1
    decreases Distance(from, to)
  {
    if from == to then [Indexed(base, from)]
    else [Indexed(base, from)] + Walk(base, from + Direction(from, to), to)
  }

  function SpanBits(s: Span): seq<Bit> {
    Walk(s.base, s.start, s.end)
  }

  function SpansBits(items: seq<Span>): seq<Bit> {
    if items == [] then [] else SpansBits(items[..|items| - 1]) + SpanBits(items[|items| - 1])
  }

  function OperandBits(op: Operand): seq<Bit> {
    match op
    case Select(s) => SpanBits(s)
    case Other(t) => [Opaque(t)]
  }

  function OperandsBits(ops: seq<Operand>): seq<Bit> {
    if ops == [] then [] else OperandsBits(ops[..|ops| - 1]) + OperandBits(ops[|ops| - 1])
  }

  // ----- Runs -----

  datatype Run = Run(items: seq<Span>, step: Option<int>)

  const NO_RUN := Run([], None)

  /** `add`: whether the span was accepted, and the run afterwards (a refused span can still fix the step). */
  function Add(run: Run, s: Span): (bool, Run) {
    if run.items == [] then (true, Run([s], None))
    else
      var prev := run.items[|run.items| - 1];
      var delta := s.start - prev.end;
      if s.base != run.items[0].base then (false, run)
      else if run.step.Some? && Direction(prev.start, prev.end) !in {0, run.step.value} then (false, run)
      else if run.step.None? && delta !in {1, -1} then (false, run)
      else
        var fixed := Run(run.items, if run.step.None? then Some(delta) else run.step);
        if delta != fixed.step.value then (false, fixed)
        else if Direction(s.start, s.end) !in {0, delta} then (false, fixed)
        else (true, Run(run.items + [s], fixed.step))
  }

  /** A contiguous index walk with a constant step; nothing is known about the direction of the first span. */
  ghost predicate Contiguous(items: seq<Span>, step: int) {
    && (step == 1 || step == -1)
    && (forall i | 0 <= i < |items| :: items[i].base == items[0].base)
    && (forall i, j | 0 <= i < j < |items| && j == i + 1 :: items[j].start == items[i].end + step)
    && (forall i | 0 < i < |items| :: Direction(items[i].start, items[i].end) in {0, step})
  }

  ghost predicate RunValid(run: Run) {
    && (run.step.Some? ==> run.items != [])
    && (|run.items| >= 2 ==> run.step.Some? && Contiguous(run.items, run.step.value))
    && (run.step.Some? ==> run.step.value in {1, -1})
  }

  lemma AddValid(run: Run, s: Span)
    requires RunValid(run)
    ensures RunValid(Add(run, s).1)
    ensures Add(run, s).1.items == if Add(run, s).0 then run.items + [s] else run.items
  {
  }

  /** The first span does not go against the step of the run. */
  predicate Aligned(items: seq<Span>) {
    |items| >= 2 ==> Direction(items[0].start, items[0].end) in {0, items[1].start - items[0].end}
  }

  /** The one select emitted for a run of several spans. */
  function Merged(items: seq<Span>): Span
    requires items != []
  {
    Span(items[0].base, items[0].start, items[|items| - 1].end)
  }

  lemma WalkJoins(base: string, a: int, b: int, c: int, step: int)
    requires step == 1 || step == -1
    requires Direction(a, b) in {0, step} && Direction(b + step, c) in {0, step}
    ensures Walk(base, a, c) == Walk(base, a, b) + Walk(base, b + step, c)
    decreases Distance(a, b)
  {
    if a != b {
      WalkJoins(base, a + step, b, c, step);
    }
  }

  lemma ContiguousFront(items: seq<Span>, step: int)
    requires |items| >= 2 && Contiguous(items, step)
    ensures
      var front, last := items[..|items| - 1], items[|items| - 1];
      && Contiguous(front, step) && last.base == front[0].base
      && last.start == front[|front| - 1].end + step && Direction(last.start, last.end) in {0, step}
  {
  }

  lemma {:induction false} AlignedMerges(items: seq<Span>, step: int)
    requires items != [] && Contiguous(items, step) && Direction(items[0].start, items[0].end) in {0, step}
    ensures SpanBits(Merged(items)) == SpansBits(items)
    ensures Direction(items[0].start, items[|items| - 1].end) in {0, step}
  {
    var front, last := items[..|items| - 1], items[|items| - 1];
    if front == [] {
      assert SpansBits(items) == [] + SpanBits(last);
    } else {
      ContiguousFront(items, step);
      AlignedMerges(front, step);
      WalkJoins(items[0].base, items[0].start, front[|front| - 1].end, last.end, step);
    }
  }

  /** From the end of the first span to the end of the run there is one index for each further bit. */
  lemma {:induction false} RunLength(items: seq<Span>, step: int)
    requires items != [] && Contiguous(items, step)
    ensures |SpansBits(items)| >= |SpanBits(items[0])|
    ensures
      var further := |SpansBits(items)| - |SpanBits(items[0])|;
      items[|items| - 1].end - items[0].end == if step == 1 then further else -further
    ensures |items| >= 2 ==> |SpansBits(items)| > |SpanBits(items[0])|
  {
    var front, last := items[..|items| - 1], items[|items| - 1];
    if front == [] {
      assert SpansBits(items) == [] + SpanBits(last);
    } else {
      ContiguousFront(items, step);
      RunLength(front, step);
    }
  }

  /** A merged run lists exactly the bits of its spans iff the first span goes with the step. */
  lemma MergedIff(run: Run)
    requires RunValid(run) && run.items != []
    ensures |SpanBits(Merged(run.items))| <= |SpansBits(run.items)|
    ensures Aligned(run.items) ==> SpanBits(Merged(run.items)) == SpansBits(run.items)
    ensures !Aligned(run.items) ==> |SpanBits(Merged(run.items))| < |SpansBits(run.items)|
  {
    var items := run.items;
    if |items| == 1 {
      AlignedMerges(items, if items[0].start <= items[0].end then 1 else -1);
    } else if Aligned(items) {
      AlignedMerges(items, run.step.value);
    } else {
      RunLength(items, run.step.value);
    }
  }

  // ----- Whole operand lists -----

  /** What is emitted together: a run that was flushed, or an operand that is no simple select. */
  datatype Group = Spans(run: Run) | Single(text: string)

  datatype State = State(groups: seq<Group>, run: Run)

  function Flush(s: State): State {
    if s.run.items == [] then s else State(s.groups + [Spans(s.run)], NO_RUN)
  }

  function Step(s: State, op: Operand): State {
    match op
    case Other(t) => State(Flush(s).groups + [Single(t)], NO_RUN)
    case Select(span) =>
      var (accepted, run) := Add(s.run, span);
      if accepted then State(s.groups, run)
      else State(Flush(State(s.groups, run)).groups, Add(NO_RUN, span).1)
  }

  function Steps(ops: seq<Operand>): State {
    if ops == [] then State([], NO_RUN) else Step(Steps(ops[..|ops| - 1]), ops[|ops| - 1])
  }

  function Groups(ops: seq<Operand>): seq<Group> {
    Flush(Steps(ops)).groups
  }

  /** The operand that is resolved for a group. */
  function Emit(g: Group): Operand
    requires g.Spans? ==> g.run.items != []
  {
    match g
    case Single(t) => Other(t)
    case Spans(run) => Select(Merged(run.items))
  }

  ghost predicate GroupValid(g: Group) {
    g.Spans? ==> RunValid(g.run) && g.run.items != []
  }

  ghost predicate GroupsValid(gs: seq<Group>) {
    forall g | g in gs :: GroupValid(g)
  }

  function EmitAll(gs: seq<Group>): seq<Operand>
    requires GroupsValid(gs)
  {
    if gs == [] then []
    else
      assert gs[|gs| - 1] in gs;
      EmitAll(gs[..|gs| - 1]) + [Emit(gs[|gs| - 1])]
  }

  function GroupBits(g: Group): seq<Bit> {
    match g
    case Single(t) => [Opaque(t)]
    case Spans(run) => SpansBits(run.items)
  }

  function GroupsBits(gs: seq<Group>): seq<Bit> {
    if gs == [] then [] else GroupsBits(gs[..|gs| - 1]) + GroupBits(gs[|gs| - 1])
  }

  ghost predicate AllAligned(gs: seq<Group>) {
    forall g | g in gs && g.Spans? :: Aligned(g.run.items)
  }

  ghost predicate StateValid(s: State) {
    GroupsValid(s.groups) && RunValid(s.run)
  }

  function StateBits(s: State): seq<Bit> {
    GroupsBits(s.groups) + SpansBits(s.run.items)
  }

  lemma StartedRun(s: Span)
    ensures Add(NO_RUN, s) == (true, Run([s], None)) && RunValid(Run([s], None))
    ensures SpansBits([s]) == SpanBits(s)
  {
    assert SpansBits([s]) == SpansBits([s][..0]) + SpanBits(s);
  }

  lemma AcceptedKeepsBits(s: State, span: Span)
    requires StateValid(s) && Add(s.run, span).0
    ensures
      var t := State(s.groups, Add(s.run, span).1);
      StateValid(t) && StateBits(t) == StateBits(s) + SpanBits(span)
  {
    AddValid(s.run, span);
    var items := Add(s.run, span).1.items;
    assert items[..|items| - 1] == s.run.items;
    PlusAssociates(GroupsBits(s.groups), SpansBits(s.run.items), SpanBits(span));
  }

  lemma RefusedKeepsBits(s: State, span: Span)
    requires StateValid(s) && !Add(s.run, span).0
    ensures
      var refused := State(s.groups, Add(s.run, span).1);
      var t := State(Flush(refused).groups, Add(NO_RUN, span).1);
      StateValid(t) && StateBits(t) == StateBits(s) + SpanBits(span)
  {
    AddValid(s.run, span);
    StartedRun(span);
    FlushKeepsBits(State(s.groups, Add(s.run, span).1));
  }

  lemma StepKeepsSelect(s: State, span: Span)
    requires StateValid(s)
    ensures StateValid(Step(s, Select(span)))
    ensures StateBits(Step(s, Select(span))) == StateBits(s) + SpanBits(span)
  {
    if Add(s.run, span).0 {
      AcceptedKeepsBits(s, span);
    } else {
      RefusedKeepsBits(s, span);
    }
  }

  lemma StepKeepsOther(s: State, text: string)
    requires StateValid(s)
    ensures StateValid(Step(s, Other(text)))
    ensures StateBits(Step(s, Other(text))) == StateBits(s) + [Opaque(text)]
  {
    var was, now := Flush(s).groups, Step(s, Other(text));
    FlushKeepsBits(s);
    PushKeepsBits(was, Single(text));
    assert now.groups == was + [Single(text)] && now.run == NO_RUN;
    NoRunBits(now);
  }

  lemma NoRunBits(s: State)
    requires s.run == NO_RUN
    ensures StateBits(s) == GroupsBits(s.groups)
  {
  }

  lemma PushKeepsBits(gs: seq<Group>, g: Group)
    ensures GroupsBits(gs + [g]) == GroupsBits(gs) + GroupBits(g)
    ensures GroupsValid(gs) && GroupValid(g) ==> GroupsValid(gs + [g])
  {
    assert (gs + [g])[..|gs|] == gs;
  }

  /** Grouping keeps every operand, in order. */
  lemma {:induction false} StepsKeepBits(ops: seq<Operand>)
    ensures StateValid(Steps(ops))
    ensures StateBits(Steps(ops)) == OperandsBits(ops)
  {
    if ops != [] {
      var s, op := Steps(ops[..|ops| - 1]), ops[|ops| - 1];
      StepsKeepBits(ops[..|ops| - 1]);
      match op
      case Other(t) => StepKeepsOther(s, t);
      case Select(span) => StepKeepsSelect(s, span);
    }
  }

  lemma FlushKeepsBits(s: State)
    requires GroupsValid(s.groups) && RunValid(s.run)
    ensures GroupsValid(Flush(s).groups)
    ensures GroupsBits(Flush(s).groups) == GroupsBits(s.groups) + SpansBits(s.run.items)
  {
    if s.run.items != [] {
      var gs := Flush(s).groups;
      assert gs[..|gs| - 1] == s.groups;
    }
  }

  lemma {:induction false} EmitBits(gs: seq<Group>)
    requires GroupsValid(gs)
    ensures |OperandsBits(EmitAll(gs))| <= |GroupsBits(gs)|
    ensures AllAligned(gs) ==> OperandsBits(EmitAll(gs)) == GroupsBits(gs)
    ensures !AllAligned(gs) ==> |OperandsBits(EmitAll(gs))| < |GroupsBits(gs)|
  {
    if gs != [] {
      var front, g := gs[..|gs| - 1], gs[|gs| - 1];
      assert gs == front + [g] && g in gs;
      EmitBits(front);
      if g.Spans? {
        MergedIff(g.run);
      }
      assert EmitAll(gs)[..|EmitAll(gs)| - 1] == EmitAll(front);
      assert AllAligned(gs) <==> AllAligned(front) && (g.Spans? ==> Aligned(g.run.items));
    }
  }

  /** The selects that `_concat_operand_sources` resolves, for a whole concatenation. */
  function MergeOperands(ops: seq<Operand>): seq<Operand> {
    StepsKeepBits(ops);
    FlushKeepsBits(Steps(ops));
    EmitAll(Groups(ops))
  }

  /**
   The merged operands list the same bits in the same order exactly when no run starts with a
   span that goes against the run's step, which `add` never tests.
   */
  lemma MergePreservesIff(ops: seq<Operand>)
    ensures OperandsBits(MergeOperands(ops)) == OperandsBits(ops) <==> AllAligned(Groups(ops))
  {
    StepsKeepBits(ops);
    FlushKeepsBits(Steps(ops));
    EmitBits(Groups(ops));
  }

  /** `{a[1:3], a[2]}` is accepted as one run, whose first span goes against its step: it becomes `a[1:2]`. */
  lemma ReversedFirstSpan()
    ensures
      var s, t := Span("a", 1, 3), Span("a", 2, 2);
      && Groups([Select(s), Select(t)]) == [Spans(Run([s, t], Some(-1)))]
      && !AllAligned(Groups([Select(s), Select(t)]))
      && Merged([s, t]) == Span("a", 1, 2)
  {
    var s, t := Span("a", 1, 3), Span("a", 2, 2);
    var ops := [Select(s), Select(t)];
    assert ops[..1] == [Select(s)] && ops[..1][..0] == [];
    assert Steps(ops[..1]) == State([], Run([s], None));
    assert Steps(ops) == State([], Run([s, t], Some(-1)));
    var g := Spans(Run([s, t], Some(-1)));
    assert Groups(ops) == [g] && g in [g];
  }

  // ----- Which operands are grouped -----

  /**
   One span, or several of one signal, each starting one step after the end of the one before it and
   going with the step, all up or all down.
   */
  ghost predicate Chain(items: seq<Span>) {
    |items| == 1 || (|items| >= 2 && (Contiguous(items, 1) || Contiguous(items, -1)))
  }

  lemma AddedGoesOn(run: Run, s: Span)
    requires RunValid(run) && (run.step.Some? <==> |run.items| >= 2) && Add(run, s).0
    ensures Chain(run.items + [s])
    ensures Add(run, s).1.items == run.items + [s] && RunValid(Add(run, s).1)
    ensures Add(run, s).1.step.Some? <==> |run.items| >= 1
  {
    AddValid(run, s);
    assert |run.items| >= 1 ==> Contiguous(run.items + [s], Add(run, s).1.step.value);
  }

  lemma GoingOnIsAdded(run: Run, s: Span)
    requires RunValid(run) && (run.step.Some? <==> |run.items| >= 2) && Chain(run.items + [s])
    ensures Add(run, s).0
  {
    var more, n := run.items + [s], |run.items|;
    if n > 0 {
      assert more[n] == s && more[n - 1] == run.items[n - 1] && more[0] == run.items[0];
      var step := if Contiguous(more, 1) then 1 else -1;
      assert Contiguous(more, step) && s.start == more[n - 1].end + step;
      if n >= 2 {
        assert more[1] == run.items[1] && more[1].start == more[0].end + step;
        assert run.items[1].start == run.items[0].end + run.step.value;
      }
    }
  }

  /** What a group consists of. */
  datatype Piece = Text(text: string) | Joined(items: seq<Span>)

  function PieceOf(g: Group): Piece {
    match g
    case Single(t) => Text(t)
    case Spans(run) => Joined(run.items)
  }

  function PiecesOf(gs: seq<Group>): seq<Piece> {
    seq(|gs|, i requires 0 <= i < |gs| => PieceOf(gs[i]))
  }

  /** The operands that the pieces consist of, in order. */
  function OperandsOf(ps: seq<Piece>): seq<Operand> {
    if ps == [] then []
    else OperandsOf(ps[..|ps| - 1]) + PieceOperands(ps[|ps| - 1])
  }

  function PieceOperands(p: Piece): seq<Operand> {
    match p
    case Text(t) => [Other(t)]
    case Joined(items) => seq(|items|, i requires 0 <= i < |items| => Select(items[i]))
  }

  ghost predicate IsChain(p: Piece) {
    p.Joined? ==> Chain(p.items)
  }

  /** Piece `p` does not go on with the first span of `q`. */
  ghost predicate Ends(p: Piece, q: Piece) {
    p.Joined? && q.Joined? && q.items != [] ==> !Chain(p.items + [q.items[0]])
  }

  /** All pieces are chains, and none could have taken in the next span. */
  ghost predicate Greedy(ps: seq<Piece>) {
    (forall p | p in ps :: IsChain(p)) && (forall i, j | 0 <= i < j < |ps| && j == i + 1 :: Ends(ps[i], ps[j]))
  }

  /** The pieces so far, the open run being the last one. */
  function Pieces(s: State): seq<Piece> {
    PiecesOf(s.groups) + if s.run.items == [] then [] else [Joined(s.run.items)]
  }

  /** After an operand that is no select, and at the start, no run is open. */
  ghost predicate RunOpen(s: State) {
    && RunValid(s.run) && (s.run.step.Some? <==> |s.run.items| >= 2)
    && (s.run.items == [] && s.groups != [] ==> s.groups[|s.groups| - 1].Single?)
  }

  lemma LastOperands(ps: seq<Piece>, p: Piece)
    ensures OperandsOf(ps + [p]) == OperandsOf(ps) + PieceOperands(p)
  {
    assert (ps + [p])[..|ps|] == ps;
  }

  lemma AllChains(ps: seq<Piece>, p: Piece)
    requires (forall q | q in ps :: IsChain(q)) && IsChain(p)
    ensures forall q | q in ps + [p] :: IsChain(q)
  {
    forall q | q in ps + [p]
      ensures IsChain(q)
    {
      if q != p {
        assert q in ps;
      }
    }
  }

  lemma AllEnd(ps: seq<Piece>, p: Piece)
    requires forall i, j | 0 <= i < j < |ps| && j == i + 1 :: Ends(ps[i], ps[j])
    requires ps != [] ==> Ends(ps[|ps| - 1], p)
    ensures forall i, j | 0 <= i < j < |ps + [p]| && j == i + 1 :: Ends((ps + [p])[i], (ps + [p])[j])
  {
    var all := ps + [p];
    forall i, j | 0 <= i < j < |all| && j == i + 1
      ensures Ends(all[i], all[j])
    {
      if j < |ps| {
        assert all[i] == ps[i] && all[j] == ps[j];
      } else {
        assert all[i] == ps[|ps| - 1] && all[j] == p;
      }
    }
  }

  lemma PushPiece(ps: seq<Piece>, p: Piece)
    requires Greedy(ps) && IsChain(p) && (ps != [] ==> Ends(ps[|ps| - 1], p))
    ensures Greedy(ps + [p])
    ensures OperandsOf(ps + [p]) == OperandsOf(ps) + PieceOperands(p)
  {
    LastOperands(ps, p);
    AllChains(ps, p);
    AllEnd(ps, p);
  }

  lemma PopPiece(ps: seq<Piece>, p: Piece)
    requires Greedy(ps + [p])
    ensures Greedy(ps) && IsChain(p) && (ps != [] ==> Ends(ps[|ps| - 1], p))
    ensures OperandsOf(ps + [p]) == OperandsOf(ps) + PieceOperands(p)
  {
    var all := ps + [p];
    assert all[..|ps|] == ps && p in all;
    forall i, j | 0 <= i < j < |ps| && j == i + 1
      ensures Ends(ps[i], ps[j])
    {
      assert all[i] == ps[i] && all[j] == ps[j];
    }
    assert ps != [] ==> Ends(all[|ps| - 1], all[|ps|]);
  }

  /** A last piece that takes in one more span. */
  lemma ExtendPiece(ps: seq<Piece>, items: seq<Span>, s: Span)
    requires Greedy(ps + [Joined(items)]) && items != [] && Chain(items + [s])
    ensures Greedy(ps + [Joined(items + [s])])
    ensures OperandsOf(ps + [Joined(items + [s])]) == OperandsOf(ps + [Joined(items)]) + [Select(s)]
  {
    PopPiece(ps, Joined(items));
    PushPiece(ps, Joined(items + [s]));
    var was := PieceOperands(Joined(items));
    assert PieceOperands(Joined(items + [s])) == was + [Select(s)];
    PlusAssociates(OperandsOf(ps), was, [Select(s)]);
  }

  lemma StartPiece(ps: seq<Piece>, s: Span)
    requires Greedy(ps) && (ps != [] ==> Ends(ps[|ps| - 1], Joined([s])))
    ensures Greedy(ps + [Joined([s])]) && OperandsOf(ps + [Joined([s])]) == OperandsOf(ps) + [Select(s)]
  {
    PushPiece(ps, Joined([s]));
    assert PieceOperands(Joined([s])) == [Select(s)];
  }

  lemma FlushedPieces(s: State)
    ensures PiecesOf(Flush(s).groups) == Pieces(s)
  {
  }

  /** The operands `ops` were taken in. */
  ghost predicate Grouped(s: State, ops: seq<Operand>) {
    RunOpen(s) && Greedy(Pieces(s)) && OperandsOf(Pieces(s)) == ops
  }

  lemma TextGroups(s: State, ops: seq<Operand>, text: string)
    requires Grouped(s, ops)
    ensures Grouped(Step(s, Other(text)), ops + [Other(text)])
  {
    var ps, t := Pieces(s), Step(s, Other(text));
    FlushedPieces(s);
    PushPiece(ps, Text(text));
    assert PiecesOf(t.groups) == PiecesOf(Flush(s).groups) + [Text(text)];
    assert Pieces(t) == ps + [Text(text)];
  }

  lemma AcceptedGroups(s: State, ops: seq<Operand>, span: Span)
    requires Grouped(s, ops) && Add(s.run, span).0
    ensures Grouped(Step(s, Select(span)), ops + [Select(span)])
  {
    var ps, t := Pieces(s), Step(s, Select(span));
    AddedGoesOn(s.run, span);
    assert PiecesOf(t.groups) == PiecesOf(s.groups);
    if s.run.items == [] {
      assert ps == PiecesOf(s.groups);
      assert s.run.items + [span] == [span];
      StartPiece(ps, span);
    } else {
      ExtendPiece(PiecesOf(s.groups), s.run.items, span);
    }
  }

  lemma RefusedGroups(s: State, ops: seq<Operand>, span: Span)
    requires Grouped(s, ops) && !Add(s.run, span).0
    ensures Grouped(Step(s, Select(span)), ops + [Select(span)])
  {
    var ps, t, refused := Pieces(s), Step(s, Select(span)), State(s.groups, Add(s.run, span).1);
    AddValid(s.run, span);
    StartedRun(span);
    if Chain(s.run.items + [span]) {
      GoingOnIsAdded(s.run, span);
    }
    FlushedPieces(refused);
    assert Pieces(refused) == ps && ps[|ps| - 1] == Joined(s.run.items);
    StartPiece(ps, span);
    assert Pieces(t) == ps + [Joined([span])];
  }

  lemma NothingGrouped()
    ensures Grouped(Steps([]), [])
  {
    assert Pieces(Steps([])) == [];
  }

  lemma {:induction false} StepsGroup(ops: seq<Operand>)
    ensures Grouped(Steps(ops), ops)
  {
    if ops == [] {
      NothingGrouped();
    } else {
      var front, op := ops[..|ops| - 1], ops[|ops| - 1];
      StepsGroup(front);
      assert front + [op] == ops;
      match op
      case Other(text) => TextGroups(Steps(front), front, text);
      case Select(span) =>
        if Add(Steps(front).run, span).0 {
          AcceptedGroups(Steps(front), front, span);
        } else {
          RefusedGroups(Steps(front), front, span);
        }
    }
  }

  /**
   The groups consist of the operands in order. Each is one operand that is no select or a chain of
   selects, and no chain could have taken in the select that follows it.
   */
  lemma GroupsAreGreedy(ops: seq<Operand>)
    ensures OperandsOf(PiecesOf(Groups(ops))) == ops
    ensures Greedy(PiecesOf(Groups(ops)))
  {
    StepsGroup(ops);
    FlushedPieces(Steps(ops));
  }

  /** Each group becomes one operand: a chain of selects the select from its first to its last index. */
  lemma {:induction false} EmittedOperands(gs: seq<Group>)
    requires GroupsValid(gs)
    ensures |EmitAll(gs)| == |gs|
    ensures forall i | 0 <= i < |gs| ::
              match PieceOf(gs[i])
              case Text(t) => EmitAll(gs)[i] == Other(t)
              case Joined(items) =>
                items != [] && EmitAll(gs)[i] == Select(Span(items[0].base, items[0].start, items[|items| - 1].end))
  {
    if gs != [] {
      EmittedOperands(gs[..|gs| - 1]);
      assert gs[|gs| - 1] in gs;
    }
  }

  // ----- The mutable run -----

  class ConcatRun {
    var items: seq<Span>
    var step: Option<int>

    function Value(): Run
      reads this
    {
      Run(items, step)
    }

    constructor ()
      ensures Value() == NO_RUN
    {
      items, step := [], None;
    }

    method Reset()
      modifies this
      ensures Value() == NO_RUN
    {
      items, step := [], None;
    }

    method TryAdd(span: Span) returns (accepted: bool)
      modifies this
      ensures (accepted, Value()) == Add(old(Value()), span)
    {
      if items == [] {
        items, step := [span], None;
        return true;
      }
      if span.base != items[0].base {
        return false;
      }
      var prev := items[|items| - 1];
      if step.Some? && Direction(prev.start, prev.end) !in {0, step.value} {
        return false;
      }
      var delta := span.start - prev.end;
      if step.None? {
        if delta !in {1, -1} {
          return false;
        }
        step := Some(delta);
      }
      if delta != step.value {
        return false;
      }
      if Direction(span.start, span.end) !in {0, step.value} {
        return false;
      }
      items := items + [span];
      return true;
    }
  }

  method FlushRun(run: ConcatRun, merged: seq<Operand>, ghost groups: seq<Group>)
    returns (more: seq<Operand>, ghost moreGroups: seq<Group>)
    requires GroupsValid(groups) && merged == EmitAll(groups) && RunValid(run.Value())
    modifies run
    ensures GroupsValid(moreGroups) && more == EmitAll(moreGroups)
    ensures State(moreGroups, run.Value()) == Flush(State(groups, old(run.Value())))
  {
    more, moreGroups := merged, groups;
    if run.items == [] {
      assert run.step.None?;
      return;
    }
    moreGroups := groups + [Spans(run.Value())];
    assert moreGroups[..|moreGroups| - 1] == groups;
    if |run.items| == 1 {
      more := merged + [Select(run.items[0])];
    } else {
      var first, last := run.items[0], run.items[|run.items| - 1];
      more := merged + [Select(Span(run.items[0].base, first.start, last.end))];
    }
    run.Reset();
  }

  method TakeSelect(run: ConcatRun, span: Span, merged: seq<Operand>, ghost groups: seq<Group>)
    returns (more: seq<Operand>, ghost moreGroups: seq<Group>)
    requires GroupsValid(groups) && merged == EmitAll(groups) && RunValid(run.Value())
    modifies run
    ensures GroupsValid(moreGroups) && more == EmitAll(moreGroups) && RunValid(run.Value())
    ensures State(moreGroups, run.Value()) == Step(State(groups, old(run.Value())), Select(span))
  {
    AddValid(run.Value(), span);
    AddValid(NO_RUN, span);
    more, moreGroups := merged, groups;
    var accepted := run.TryAdd(span);
    if !accepted {
      more, moreGroups := FlushRun(run, merged, groups);
      accepted := run.TryAdd(span);
    }
  }

  method ConcatOperandSources(ops: seq<Operand>) returns (merged: seq<Operand>)
    ensures merged == MergeOperands(ops)
  {
    merged := [];
    ghost var groups: seq<Group> := [];
    var run := new ConcatRun();
    for i := 0 to |ops|
      invariant fresh(run)
      invariant State(groups, run.Value()) == Steps(ops[..i])
      invariant GroupsValid(groups) && RunValid(run.Value()) && merged == EmitAll(groups)
    {
      assert ops[..i + 1][..i] == ops[..i];
      match ops[i]
      case Other(t) =>
        merged, groups := FlushRun(run, merged, groups);
        merged := merged + [Other(t)];
        groups := groups + [Single(t)];
        assert groups[..|groups| - 1] + [Single(t)] == groups;
      case Select(span) =>
        merged, groups := TakeSelect(run, span, merged, groups);
    }
    assert ops[..|ops|] == ops;
    merged, groups := FlushRun(run, merged, groups);
  }
}
