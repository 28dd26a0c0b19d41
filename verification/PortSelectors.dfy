/**
 Port selector texts such as `mst_reqs_o[2].ar.addr[3:0]`: parsing and printing (`PortSelector`),
 and exactly when they undo each other.
 */
module PortSelectors {
  import opened Wrappers
  import opened Sequences

  datatype Op = Field(name: string) | Slice(upper: nat, lower: nat)

  datatype Selector = Selector(port: string, ops: seq<Op>)

  datatype Error = EmptySelector | InvalidBounds | EmptyPort | EmptyField

  // ----- Characters and trimming -----

  predicate IsSpace(c: char) {
    var n := c as int;
    || 0x9 <= n <= 0xd || 0x1c <= n <= 0x20 || n == 0x85 || n == 0xa0 || n == 0x1680
    || 0x2000 <= n <= 0x200a || n == 0x2028 || n == 0x2029 || n == 0x202f || n == 0x205f || n == 0x3000
  }

  predicate IsDigit(c: char) {
    '0' <= c <= '9'
  }

  predicate AllSpaces(s: string) {
    forall c | c in s :: IsSpace(c)
  }

  predicate AllDigits(s: string) {
    forall c | c in s :: IsDigit(c)
  }

  function StripLeft(s: string): string {
    if s != [] && IsSpace(s[0]) then StripLeft(s[1..]) else s
  }

  function StripRight(s: string): string {
    if s != [] && IsSpace(s[|s| - 1]) then StripRight(s[..|s| - 1]) else s
  }

  function Strip(s: string): string {
    StripRight(StripLeft(s))
  }

  predicate Trimmed(s: string) {
    s == [] || (!IsSpace(s[0]) && !IsSpace(s[|s| - 1]))
  }

  // ----- Numbers -----

  function ToDecimal(n: nat): (s: string)
    ensures s != [] && AllDigits(s)
  {
    if n < 10 then ['0' + n as char] else ToDecimal(n / 10) + ['0' + (n % 10) as char]
  }

  function FromDecimal(s: string): nat
    requires AllDigits(s)
  {
    if s == [] then 0
    else
      assert s[|s| - 1] in s;
      10 * FromDecimal(s[..|s| - 1]) + (s[|s| - 1] - '0') as nat
  }

  // ----- Bounds -----

  function DigitsOf(s: string): (d: string)
    ensures AllDigits(d)
  {
    if s != [] && IsDigit(s[0]) then [s[0]] + DigitsOf(s[1..]) else []
  }

  function AfterDigits(s: string): string {
    if s != [] && IsDigit(s[0]) then AfterDigits(s[1..]) else s
  }

  /** Matches `SELECTOR_SLICE_REGEXP`: `[hi:lo]` or `[idx]`, with spaces around the numbers. */
  function ParseBounds(part: string): Option<(nat, nat)> {
    if part == [] || part[0] != '[' then None
    else
      var s := StripLeft(part[1..]);
      var first := DigitsOf(s);
      var rest := StripLeft(AfterDigits(s));
      if first == [] then None
      else if rest == "]" then Some((FromDecimal(first), FromDecimal(first)))
      else if rest == [] || rest[0] != ':' then None
      else
        var t := StripLeft(rest[1..]);
        var second := DigitsOf(t);
        if second == [] || StripLeft(AfterDigits(t)) != "]" then None
        else Some((FromDecimal(first), FromDecimal(second)))
  }

  // ----- Cutting a text into parts -----

  /** `str.split` on one character: never empty. */
  function Split(s: string, sep: char): (parts: seq<string>)
    ensures |parts| >= 1
  {
    if s == [] then [[]]
    else if s[0] == sep then [[]] + Split(s[1..], sep)
    else
      var rest := Split(s[1..], sep);
      [[s[0]] + rest[0]] + rest[1..]
  }

  function Bracketed(slices: seq<string>): seq<string> {
    seq(|slices|, i requires 0 <= i < |slices| => "[" + slices[i])
  }

  /** One dot-separated piece, cut before each `[`. */
  function SliceParts(piece: string): seq<string> {
    var slices := Split(piece, '[');
    [slices[0]] + Bracketed(slices[1..])
  }

  function AllSliceParts(pieces: seq<string>): seq<string> {
    if pieces == [] then [] else SliceParts(pieces[0]) + AllSliceParts(pieces[1..])
  }

  function PartsOf(text: string): seq<string> {
    AllSliceParts(Split(text, '.'))
  }

  predicate BlankSlice(part: string) {
    part != [] && part[0] == '[' && Strip(part[1..]) == []
  }

  // ----- Parsing -----

  function ParsePart(part: string): Result<Op, Error> {
    var p := Strip(part);
    if p != [] && p[|p| - 1] == ']' then
      match ParseBounds(p)
      case None => Failure(InvalidBounds)
      case Some((hi, lo)) => Success(Slice(hi, lo))
    else if p == [] then Failure(EmptyField)
    else Success(Field(p))
  }

  function ParseParts(parts: seq<string>): Result<seq<Op>, Error> {
    if parts == [] then Success([])
    else
      match ParseParts(parts[..|parts| - 1])
      case Failure(e) => Failure(e)
      case Success(ops) =>
        match ParsePart(parts[|parts| - 1])
        case Failure(e) => Failure(e)
        case Success(op) => Success(ops + [op])
  }

  function Parse(text: string): Result<Selector, Error> {
    if text == [] then Failure(EmptySelector)
    else
      var parts := PartsOf(text);
      if exists p | p in parts :: BlankSlice(p) then Failure(InvalidBounds)
      else if parts == [] || Strip(parts[0]) == [] then Failure(EmptyPort)
      else
        match ParseParts(parts[1..])
        case Failure(e) => Failure(e)
        case Success(ops) => Success(Selector(Strip(parts[0]), ops))
  }

  // ----- Printing -----

  function PrintOp(op: Op): string {
    match op
    case Field(name) => "." + name
    case Slice(upper, lower) =>
      if upper == lower then "[" + ToDecimal(upper) + "]"
      else "[" + ToDecimal(upper) + ":" + ToDecimal(lower) + "]"
  }

  function PrintOps(ops: seq<Op>): string {
    if ops == [] then "" else PrintOps(ops[..|ops| - 1]) + PrintOp(ops[|ops| - 1])
  }

  function Print(s: Selector): string {
    s.port + PrintOps(s.ops)
  }

  // ----- Well-formed selectors -----

  predicate Plain(s: string) {
    '.' !in s && '[' !in s
  }

  predicate WellFormedPort(name: string) {
    name != [] && Trimmed(name) && Plain(name)
  }

  predicate WellFormedField(name: string) {
    name != [] && Trimmed(name) && Plain(name) && name[|name| - 1] != ']'
  }

  predicate WellFormed(s: Selector) {
    && WellFormedPort(s.port)
    && (forall op | op in s.ops && op.Field? :: WellFormedField(op.name))
  }

  /** A field that parsing produces from a bracket that is not closed, such as `[1]x`. */
  predicate UnclosedField(name: string) {
    name != [] && name[0] == '[' && Trimmed(name) && Plain(name[1..]) && name[|name| - 1] != ']'
  }

  /** Every part that starts with a bracket ends with one. */
  predicate BracketsClosed(text: string) {
    forall p | p in PartsOf(text) && p != [] && p[0] == '[' :: Strip(p) != [] && Strip(p)[|Strip(p)| - 1] == ']'
  }

  // ----- Trimming -----

  lemma {:induction false} StripLeftFacts(s: string)
    ensures forall c | c in StripLeft(s) :: c in s
    ensures StripLeft(s) == [] || !IsSpace(StripLeft(s)[0])
    ensures s != [] && !IsSpace(s[|s| - 1]) ==> StripLeft(s) != [] && StripLeft(s)[|StripLeft(s)| - 1] == s[|s| - 1]
  {
    if s != [] && IsSpace(s[0]) {
      StripLeftFacts(s[1..]);
    }
  }

  lemma {:induction false} StripRightFacts(s: string)
    ensures forall c | c in StripRight(s) :: c in s
    ensures StripRight(s) == [] || !IsSpace(StripRight(s)[|StripRight(s)| - 1])
    ensures s != [] && !IsSpace(s[0]) ==> StripRight(s) != [] && StripRight(s)[0] == s[0]
    ensures StripRight(s) <= s
  {
    if s != [] && IsSpace(s[|s| - 1]) {
      StripRightFacts(s[..|s| - 1]);
    }
  }

  lemma StripFacts(s: string)
    ensures Trimmed(Strip(s))
    ensures forall c | c in Strip(s) :: c in s
    ensures Trimmed(s) ==> Strip(s) == s
    ensures s != [] && !IsSpace(s[0]) ==> Strip(s) != [] && Strip(s)[0] == s[0] && Strip(s) <= s
    ensures s != [] && !IsSpace(s[|s| - 1]) ==> Strip(s) != []
  {
    StripLeftFacts(s);
    StripRightFacts(StripLeft(s));
  }

  // ----- Numbers -----

  lemma {:induction false} DecimalRoundTrip(n: nat)
    ensures FromDecimal(ToDecimal(n)) == n
  {
    if n < 10 {
      assert FromDecimal([]) == 0;
      assert ToDecimal(n)[..0] == [];
    } else {
      DecimalRoundTrip(n / 10);
      var s := ToDecimal(n);
      assert s[..|s| - 1] == ToDecimal(n / 10);
      assert s[|s| - 1] - '0' == (n % 10) as char;
    }
  }

  lemma {:induction false} DigitsSplit(s: string)
    ensures s == DigitsOf(s) + AfterDigits(s)
  {
    if s != [] && IsDigit(s[0]) {
      DigitsSplit(s[1..]);
    }
  }

  lemma {:induction false} DigitsAppend(d: string, rest: string)
    requires AllDigits(d) && (rest == [] || !IsDigit(rest[0]))
    ensures DigitsOf(d + rest) == d && AfterDigits(d + rest) == rest
  {
    if d == [] {
      assert d + rest == rest;
    } else {
      assert d[0] in d;
      assert (d + rest)[1..] == d[1..] + rest;
      DigitsAppend(d[1..], rest);
    }
  }

  // ----- Bounds against their grammar -----

  function LeadingSpaces(s: string): (w: string)
    ensures AllSpaces(w) && s == w + StripLeft(s)
  {
    if s != [] && IsSpace(s[0]) then [s[0]] + LeadingSpaces(s[1..]) else []
  }

  lemma {:induction false} SkipSpaces(w: string, s: string)
    requires AllSpaces(w) && (s == [] || !IsSpace(s[0]))
    ensures StripLeft(w + s) == s
  {
    if w == [] {
      assert w + s == s;
    } else {
      assert w[0] in w;
      assert (w + s)[1..] == w[1..] + s;
      SkipSpaces(w[1..], s);
    }
  }

  predicate IndexText(part: string, w: string, d: string, x: string, index: nat) {
    && part == "[" + w + d + x + "]"
    && AllSpaces(w) && AllSpaces(x) && AllDigits(d) && d != []
    && FromDecimal(d) == index
  }

  predicate RangeText(part: string, w: string, d: string, x: string, y: string, e: string, z: string,
                      hi: nat, lo: nat)
  {
    && part == "[" + w + d + x + ":" + y + e + z + "]"
    && AllSpaces(w) && AllSpaces(x) && AllSpaces(y) && AllSpaces(z)
    && AllDigits(d) && d != [] && AllDigits(e) && e != []
    && FromDecimal(d) == hi && FromDecimal(e) == lo
  }

  ghost predicate BoundsText(part: string, hi: nat, lo: nat) {
    || (hi == lo && exists w, d, x :: IndexText(part, w, d, x, hi))
    || (exists w, d, x, y, e, z :: RangeText(part, w, d, x, y, e, z, hi, lo))
  }

  lemma NumberThen(w: string, d: string, x: string, rest: string)
    requires AllSpaces(w) && AllDigits(d) && d != [] && AllSpaces(x)
    requires rest != [] && !IsSpace(rest[0]) && !IsDigit(rest[0])
    ensures
      var s := StripLeft(w + d + x + rest);
      DigitsOf(s) == d && StripLeft(AfterDigits(s)) == rest
  {
    assert d[0] in d;
    assert w + d + x + rest == w + (d + (x + rest));
    SkipSpaces(w, d + (x + rest));
    assert x != [] ==> x[0] in x;
    DigitsAppend(d, x + rest);
    SkipSpaces(x, rest);
  }

  lemma IndexParses(part: string, w: string, d: string, x: string, n: nat)
    requires IndexText(part, w, d, x, n)
    ensures ParseBounds(part) == Some((n, n))
  {
    assert part[1..] == w + d + x + "]";
    NumberThen(w, d, x, "]");
  }

  lemma RangeParses(part: string, w: string, d: string, x: string, y: string, e: string, z: string, hi: nat, lo: nat)
    requires RangeText(part, w, d, x, y, e, z, hi, lo)
    ensures ParseBounds(part) == Some((hi, lo))
  {
    var rest := ":" + y + e + z + "]";
    assert part[1..] == w + d + x + rest;
    NumberThen(w, d, x, rest);
    assert rest[1..] == y + e + z + "]";
    NumberThen(y, e, z, "]");
  }

  lemma ParseBoundsAccepts(part: string, hi: nat, lo: nat)
    requires BoundsText(part, hi, lo)
    ensures ParseBounds(part) == Some((hi, lo))
  {
    if hi == lo && exists w, d, x :: IndexText(part, w, d, x, hi) {
      var w, d, x :| IndexText(part, w, d, x, hi);
      IndexParses(part, w, d, x, hi);
    } else {
      var w, d, x, y, e, z :| RangeText(part, w, d, x, y, e, z, hi, lo);
      RangeParses(part, w, d, x, y, e, z, hi, lo);
    }
  }

  lemma NumberParts(t: string) returns (w: string, d: string, x: string, rest: string)
    ensures t == w + d + x + rest && AllSpaces(w) && AllSpaces(x)
    ensures d == DigitsOf(StripLeft(t)) && rest == StripLeft(AfterDigits(StripLeft(t)))
  {
    var digits := StripLeft(t);
    var after := AfterDigits(digits);
    w, d, x, rest := LeadingSpaces(t), DigitsOf(digits), LeadingSpaces(after), StripLeft(after);
    DigitsSplit(digits);
    PlusAssociates(w, d, after);
    PlusAssociates(w + d, x, rest);
  }

  lemma JoinRange(part: string, w: string, d: string, x: string, rest: string, y: string, e: string, z: string)
    requires part == "[" + (w + d + x + rest) && rest == ":" + (y + e + z + "]")
    ensures part == "[" + w + d + x + ":" + y + e + z + "]"
  {
  }

  lemma ParseBoundsGives(part: string, hi: nat, lo: nat)
    requires ParseBounds(part) == Some((hi, lo))
    ensures BoundsText(part, hi, lo)
  {
    var w, d, x, rest := NumberParts(part[1..]);
    assert part == "[" + (w + d + x + rest);
    if rest == "]" {
      assert IndexText(part, w, d, x, hi);
    } else {
      var y, e, z, end := NumberParts(rest[1..]);
      assert rest == ":" + (y + e + z + "]");
      JoinRange(part, w, d, x, rest, y, e, z);
      assert RangeText(part, w, d, x, y, e, z, hi, lo);
    }
  }

  /** The bounds parser accepts exactly the texts of the bounds grammar, with the numbers they show. */
  lemma ParseBoundsIff(part: string, hi: nat, lo: nat)
    ensures ParseBounds(part) == Some((hi, lo)) <==> BoundsText(part, hi, lo)
  {
    if BoundsText(part, hi, lo) {
      ParseBoundsAccepts(part, hi, lo);
    }
    if ParseBounds(part) == Some((hi, lo)) {
      ParseBoundsGives(part, hi, lo);
    }
  }

  lemma PrintedBounds(upper: nat, lower: nat)
    ensures ParseBounds(PrintOp(Slice(upper, lower))) == Some((upper, lower))
  {
    DecimalRoundTrip(upper);
    DecimalRoundTrip(lower);
    var text := PrintOp(Slice(upper, lower));
    if upper == lower {
      assert IndexText(text, [], ToDecimal(upper), [], upper);
    } else {
      assert RangeText(text, [], ToDecimal(upper), [], [], ToDecimal(lower), [], upper, lower);
    }
    ParseBoundsIff(text, upper, lower);
  }

  // ----- Cutting in one pass -----

  function Prepend(c: char, parts: seq<string>): seq<string>
    requires parts != []
  {
    [[c] + parts[0]] + parts[1..]
  }

  /** Drops each `.` and starts a new part there and at each `[`. */
  function Cut(text: string): (parts: seq<string>)
    ensures parts != []
  {
    if text == [] then [[]]
    else if text[0] == '.' then [[]] + Cut(text[1..])
    else if text[0] == '[' then [[]] + Prepend('[', Cut(text[1..]))
    else Prepend(text[0], Cut(text[1..]))
  }

  lemma SlicePartsStep(c: char, piece: string)
    ensures SliceParts([c] + piece) ==
            if c == '[' then [[]] + Prepend('[', SliceParts(piece)) else Prepend(c, SliceParts(piece))
  {
    assert ([c] + piece)[1..] == piece;
    var slices := Split(piece, '[');
    assert Split([c] + piece, '[') == if c == '[' then [[]] + slices else [[c] + slices[0]] + slices[1..];
    if c == '[' {
      assert Bracketed(slices) == ["[" + slices[0]] + Bracketed(slices[1..]);
    }
  }

  lemma PrependFirst(c: char, parts: seq<string>, more: seq<string>)
    requires parts != []
    ensures Prepend(c, parts + more) == Prepend(c, parts) + more
  {
    assert (parts + more)[1..] == parts[1..] + more;
  }

  lemma AddPiece(piece: string, pieces: seq<string>)
    ensures AllSliceParts([piece] + pieces) == SliceParts(piece) + AllSliceParts(pieces)
  {
    assert ([piece] + pieces)[1..] == pieces;
  }

  /** A character other than the dot goes to the first piece. */
  lemma GrowPiece(c: char, pieces: seq<string>)
    requires pieces != []
    ensures
      var parts := AllSliceParts(pieces);
      && parts != []
      && AllSliceParts([[c] + pieces[0]] + pieces[1..]) ==
         if c == '[' then [[]] + Prepend('[', parts) else Prepend(c, parts)
  {
    var first, more := SliceParts(pieces[0]), AllSliceParts(pieces[1..]);
    AddPiece([c] + pieces[0], pieces[1..]);
    SlicePartsStep(c, pieces[0]);
    PrependFirst(c, first, more);
    if c == '[' {
      PlusAssociates([[]], Prepend(c, first), more);
    }
  }

  lemma {:induction false} PartsOfIsCut(text: string)
    ensures PartsOf(text) == Cut(text)
  {
    if text == [] {
      assert AllSliceParts([[]]) == SliceParts([]);
    } else {
      PartsOfIsCut(text[1..]);
      var c, rest := text[0], Split(text[1..], '.');
      if c == '.' {
        AddPiece([], rest);
        assert SliceParts([]) == [[]];
      } else {
        GrowPiece(c, rest);
      }
    }
  }

  lemma {:induction false} CutAppend(a: string, b: string)
    requires b != [] && (b[0] == '.' || b[0] == '[')
    ensures Cut(a + b) == Cut(a) + Cut(b)[1..]
  {
    if a == [] {
      assert a + b == b;
    } else {
      assert (a + b)[0] == a[0] && (a + b)[1..] == a[1..] + b;
      CutAppend(a[1..], b);
      var rest, more := Cut(a[1..]), Cut(b)[1..];
      PrependFirst(a[0], rest, more);
      if a[0] == '.' {
        PlusAssociates([[]], rest, more);
      } else if a[0] == '[' {
        PlusAssociates([[]], Prepend('[', rest), more);
      }
    }
  }

  lemma {:induction false} CutPlain(s: string)
    requires Plain(s)
    ensures Cut(s) == [s]
  {
    if s != [] {
      assert s[0] in s && forall c | c in s[1..] :: c in s;
      CutPlain(s[1..]);
      assert [s[0]] + s[1..] == s;
    }
  }

  predicate PartShape(p: string) {
    Plain(p) || (p != [] && p[0] == '[' && Plain(p[1..]))
  }

  lemma {:induction false} CutShapes(text: string)
    ensures Plain(Cut(text)[0])
    ensures forall p | p in Cut(text) :: PartShape(p)
  {
    if text != [] {
      CutShapes(text[1..]);
    }
  }

  // ----- What parsing can produce -----

  predicate Parsed(s: Selector) {
    && WellFormedPort(s.port)
    && (forall op | op in s.ops && op.Field? :: WellFormedField(op.name) || UnclosedField(op.name))
  }

  lemma ParsePartShape(part: string)
    requires PartShape(part) && ParsePart(part).Success? && ParsePart(part).value.Field?
    ensures
      var name := ParsePart(part).value.name;
      if part != [] && part[0] == '[' then UnclosedField(name) else WellFormedField(name)
  {
    StripFacts(part);
    var name := Strip(part);
    if part != [] && part[0] == '[' {
      assert name[1..] <= part[1..];
    }
  }

  lemma {:induction false} ParsePartsAll(parts: seq<string>)
    ensures ParseParts(parts).Success? <==> forall p | p in parts :: ParsePart(p).Success?
    ensures ParseParts(parts).Success? ==>
              && |ParseParts(parts).value| == |parts|
              && forall i | 0 <= i < |parts| :: ParsePart(parts[i]) == Success(ParseParts(parts).value[i])
  {
    if parts != [] {
      var front, p := parts[..|parts| - 1], parts[|parts| - 1];
      assert forall q :: q in parts <==> q in front || q == p;
      ParsePartsAll(front);
    }
  }

  /** What parsing makes of the port and of each part. */
  lemma ParsedShapes(text: string, s: Selector)
    requires Parse(text) == Success(s)
    ensures |PartsOf(text)| == |s.ops| + 1 && Plain(PartsOf(text)[0]) && WellFormedPort(s.port)
    ensures forall i | 0 <= i < |s.ops| ::
              ParsePart(PartsOf(text)[i + 1]) == Success(s.ops[i]) && PartShape(PartsOf(text)[i + 1])
  {
    var parts := PartsOf(text);
    PartsOfIsCut(text);
    CutShapes(text);
    StripFacts(parts[0]);
    ParsePartsAll(parts[1..]);
    assert forall i | 0 <= i < |s.ops| :: parts[1..][i] == parts[i + 1];
  }

  lemma FieldIsUnclosedIff(part: string, op: Op)
    requires PartShape(part) && ParsePart(part) == Success(op) && op.Field?
    ensures if part != [] && part[0] == '['
            then UnclosedField(op.name) && !WellFormedField(op.name)
            else WellFormedField(op.name)
    ensures Strip(part) != [] && Strip(part)[|Strip(part)| - 1] != ']'
  {
    ParsePartShape(part);
  }

  lemma ParseGives(text: string, s: Selector)
    requires Parse(text) == Success(s)
    ensures Parsed(s)
    ensures WellFormed(s) <==> BracketsClosed(text)
  {
    ParsedShapes(text, s);
    var parts := PartsOf(text);
    forall i | 0 <= i < |s.ops| && s.ops[i].Field?
      ensures WellFormedField(s.ops[i].name) || UnclosedField(s.ops[i].name)
      ensures WellFormedField(s.ops[i].name) <==> !(parts[i + 1] != [] && parts[i + 1][0] == '[')
      ensures Strip(parts[i + 1]) != [] && Strip(parts[i + 1])[|Strip(parts[i + 1])| - 1] != ']'
    {
      FieldIsUnclosedIff(parts[i + 1], s.ops[i]);
    }
    if BracketsClosed(text) {
      forall op | op in s.ops && op.Field?
        ensures WellFormedField(op.name)
      {
        var i :| 0 <= i < |s.ops| && s.ops[i] == op;
        assert parts[i + 1] in parts;
      }
    }
    if WellFormed(s) {
      forall p | p in parts && p != [] && p[0] == '['
        ensures Strip(p) != [] && Strip(p)[|Strip(p)| - 1] == ']'
      {
        var i :| 0 <= i < |parts| && parts[i] == p;
        assert i > 0 && s.ops[i - 1] in s.ops;
        SliceEndsInBracket(p, s.ops[i - 1]);
      }
    }
  }

  lemma SliceEndsInBracket(part: string, op: Op)
    requires ParsePart(part) == Success(op) && op.Slice?
    ensures Strip(part) != [] && Strip(part)[|Strip(part)| - 1] == ']'
  {
  }

  // ----- Printing and cutting -----

  function OpParts(op: Op): seq<string> {
    match op
    case Field(name) => if name != [] && name[0] == '[' then [[], name] else [name]
    case Slice(_, _) => [PrintOp(op)]
  }

  function OpsParts(ops: seq<Op>): seq<string> {
    if ops == [] then [] else OpsParts(ops[..|ops| - 1]) + OpParts(ops[|ops| - 1])
  }

  lemma PlainSlice(upper: nat, lower: nat)
    ensures Plain(PrintOp(Slice(upper, lower))[1..])
  {
    var rest := PrintOp(Slice(upper, lower))[1..];
    if upper == lower {
      assert rest == ToDecimal(upper) + "]";
    } else {
      assert rest == ToDecimal(upper) + ":" + ToDecimal(lower) + "]";
    }
    forall c | c in rest
      ensures IsDigit(c) || c == ':' || c == ']'
    {
    }
  }

  lemma PrintOpParts(op: Op)
    requires op.Field? ==> WellFormedField(op.name) || UnclosedField(op.name)
    ensures Cut(PrintOp(op))[1..] == OpParts(op)
  {
    match op
    case Field(name) =>
      assert PrintOp(op)[1..] == name;
      if UnclosedField(name) {
        CutPlain(name[1..]);
        assert ['['] + name[1..] == name;
      } else {
        assert name[0] in name;
        CutPlain(name);
      }
    case Slice(upper, lower) =>
      var rest := PrintOp(op)[1..];
      PlainSlice(upper, lower);
      CutPlain(rest);
      assert ['['] + rest == PrintOp(op);
  }

  lemma PrintNextParts(port: string, ops: seq<Op>, op: Op)
    requires PartsOf(port + PrintOps(ops)) == [port] + OpsParts(ops)
    requires op.Field? ==> WellFormedField(op.name) || UnclosedField(op.name)
    ensures PartsOf(port + (PrintOps(ops) + PrintOp(op))) == [port] + (OpsParts(ops) + OpParts(op))
  {
    var before, text := port + PrintOps(ops), PrintOp(op);
    PlusAssociates(port, PrintOps(ops), text);
    PartsOfIsCut(before);
    PartsOfIsCut(before + text);
    CutAppend(before, text);
    PrintOpParts(op);
    PlusAssociates([port], OpsParts(ops), OpParts(op));
  }

  lemma {:induction false} PrintOpsParts(port: string, ops: seq<Op>)
    requires Plain(port)
    requires forall op | op in ops && op.Field? :: WellFormedField(op.name) || UnclosedField(op.name)
    ensures PartsOf(port + PrintOps(ops)) == [port] + OpsParts(ops)
    decreases |ops|
  {
    if ops == [] {
      assert port + "" == port && [port] + [] == [port];
      PartsOfIsCut(port);
      CutPlain(port);
    } else {
      var front, op := ops[..|ops| - 1], ops[|ops| - 1];
      assert op in ops;
      PrintOpsParts(port, front);
      PrintNextParts(port, front, op);
    }
  }

  lemma PrintParts(s: Selector)
    requires Parsed(s)
    ensures PartsOf(Print(s)) == [s.port] + OpsParts(s.ops)
  {
    PrintOpsParts(s.port, s.ops);
  }

  lemma ParseOpPart(op: Op)
    requires op.Field? ==> WellFormedField(op.name)
    ensures OpParts(op) == [OpParts(op)[0]] && ParsePart(OpParts(op)[0]) == Success(op)
    ensures !BlankSlice(OpParts(op)[0])
  {
    match op
    case Field(name) =>
      assert name[0] in name;
      StripFacts(name);
    case Slice(upper, lower) =>
      var text := PrintOp(op);
      StripFacts(text);
      PrintedBounds(upper, lower);
      StripFacts(text[1..]);
  }

  lemma {:induction false} ParseOpsParts(ops: seq<Op>)
    requires forall op | op in ops && op.Field? :: WellFormedField(op.name)
    ensures ParseParts(OpsParts(ops)) == Success(ops)
    ensures forall p | p in OpsParts(ops) :: !BlankSlice(p)
  {
    if ops != [] {
      var front, op := ops[..|ops| - 1], ops[|ops| - 1];
      assert op in ops && ops == front + [op];
      ParseOpsParts(front);
      ParseOpPart(op);
      var parts := OpsParts(ops);
      assert parts[..|parts| - 1] == OpsParts(front) && parts[|parts| - 1] == OpParts(op)[0];
    }
  }

  lemma {:induction false} UnclosedLeavesGap(ops: seq<Op>, op: Op)
    requires op in ops && op.Field? && UnclosedField(op.name)
    ensures [] in OpsParts(ops)
  {
    var front, last := ops[..|ops| - 1], ops[|ops| - 1];
    assert ops == front + [last];
    if op == last {
      assert [] in OpParts(op) by {
        assert OpParts(op)[0] == [];
      }
    } else {
      UnclosedLeavesGap(front, op);
    }
  }

  // ----- Main results -----

  lemma ParsesTo(text: string, port: string, parts: seq<string>, ops: seq<Op>)
    requires text != [] && PartsOf(text) == [port] + parts
    requires port != [] && Strip(port) == port && !BlankSlice(port)
    requires forall p | p in parts :: !BlankSlice(p)
    requires ParseParts(parts) == Success(ops)
    ensures Parse(text) == Success(Selector(port, ops))
  {
    assert PartsOf(text)[1..] == parts;
    assert forall p | p in PartsOf(text) :: p == port || p in parts;
  }

  lemma PrintThenParse(s: Selector)
    requires WellFormed(s)
    ensures Parse(Print(s)) == Success(s)
  {
    PrintParts(s);
    ParseOpsParts(s.ops);
    StripFacts(s.port);
    assert s.port[0] in s.port;
    ParsesTo(Print(s), s.port, OpsParts(s.ops), s.ops);
  }

  lemma GapFails(parts: seq<string>)
    requires [] in parts
    ensures ParseParts(parts).Failure?
  {
    ParsePartsAll(parts);
    assert ParsePart([]) == Failure(EmptyField);
  }

  lemma BadPartsDoNotParse(text: string, port: string, parts: seq<string>)
    requires PartsOf(text) == [port] + parts && ParseParts(parts).Failure?
    ensures Parse(text).Failure?
  {
    assert PartsOf(text)[1..] == parts;
  }

  lemma {:induction false} UnclosedDoesNotParse(s: Selector)
    requires Parsed(s) && !WellFormed(s)
    ensures Parse(Print(s)).Failure?
  {
    PrintParts(s);
    var op :| op in s.ops && op.Field? && !WellFormedField(op.name);
    UnclosedLeavesGap(s.ops, op);
    GapFails(OpsParts(s.ops));
    BadPartsDoNotParse(Print(s), s.port, OpsParts(s.ops));
  }

  /** Printing and parsing back gives the selector for the well-formed ones, and for no others. */
  lemma RoundTripIff(s: Selector)
    ensures Parse(Print(s)) == Success(s) <==> WellFormed(s)
  {
    if WellFormed(s) {
      PrintThenParse(s);
    } else if Parsed(s) {
      UnclosedDoesNotParse(s);
    } else if Parse(Print(s)) == Success(s) {
      ParseGives(Print(s), s);
      assert false;
    }
  }

  /**
   Parsing gives a well-formed selector, and printing it gives a text that parses to the same
   selector, exactly when every bracket of the parsed text is closed at the end of its part.
   */
  lemma {:induction false} CanonicalIff(text: string, s: Selector)
    requires Parse(text) == Success(s)
    ensures WellFormed(s) <==> BracketsClosed(text)
    ensures Parse(Print(s)) == Success(s) <==> BracketsClosed(text)
  {
    ParseGives(text, s);
    RoundTripIff(s);
  }

  lemma UnclosedBracketParts()
    ensures PartsOf("a[1]x") == ["a", "[1]x"]
  {
    var rest := "[1]x";
    assert "a[1]x" == "a" + rest;
    PartsOfIsCut("a" + rest);
    CutAppend("a", rest);
    CutPlain("a");
    assert rest[1..] == "1]x" && ['['] + "1]x" == rest;
    CutPlain("1]x");
    assert Cut(rest) == [[], rest];
  }

  lemma UnclosedFieldPart()
    ensures ParsePart("[1]x") == Success(Field("[1]x")) && !BlankSlice("[1]x")
  {
    var part := "[1]x";
    StripFacts(part);
    StripFacts(part[1..]);
  }

  lemma {:induction false} OnePartParses(part: string, op: Op)
    requires ParsePart(part) == Success(op)
    ensures ParseParts([part]) == Success([op])
  {
    assert [part][..0] == [] && [] + [op] == [op];
  }

  /** `a[1]x` parses as a field selection of `[1]x`, which does not print to a selector. */
  lemma UnclosedBracketExample()
    ensures
      var s := Selector("a", [Field("[1]x")]);
      Parse("a[1]x") == Success(s) && Parse(Print(s)).Failure?
  {
    var part := "[1]x";
    var s := Selector("a", [Field(part)]);
    UnclosedBracketParts();
    UnclosedFieldPart();
    StripFacts("a");
    OnePartParses(part, Field(part));
    ParsesTo("a[1]x", "a", [part], s.ops);
    assert Field(part) in s.ops;
    assert part[0] in part;
    ParseGives("a[1]x", s);
    UnclosedDoesNotParse(s);
  }

  // ----- What parsing accepts, without its steps -----

  /** The parts joined again: a part that starts with a bracket follows directly, any other after a dot. */
  function Glue(parts: seq<string>): string
    requires parts != []
  {
    parts[0] + GlueRest(parts[1..])
  }

  function GlueRest(parts: seq<string>): string {
    if parts == [] then "" else Attached(parts[0]) + GlueRest(parts[1..])
  }

  function Attached(part: string): string {
    if part != [] && part[0] == '[' then part else "." + part
  }

  /** No dots, and brackets only at the start of parts, the first of which has none. */
  ghost predicate PartShapes(parts: seq<string>) {
    && parts != [] && Plain(parts[0])
    && (forall i | 1 <= i < |parts| :: PartShape(parts[i]))
  }

  lemma {:induction false} GlueCut(text: string)
    ensures Glue(Cut(text)) == text
  {
    if text != [] {
      var rest := Cut(text[1..]);
      GlueCut(text[1..]);
      CutShapes(text[1..]);
      assert [text[0]] + text[1..] == text;
      if text[0] == '.' {
        assert rest[0] != [] ==> rest[0][0] in rest[0];
        assert ([[]] + rest)[1..] == rest;
        GlueMore("", ".", rest[0], rest[1..]);
      } else {
        GluePrepend(text[0], rest);
        if text[0] == '[' {
          var p := Prepend('[', rest);
          assert ([[]] + p)[1..] == p && p[0][0] == '[' && p[0] + GlueRest(p[1..]) == Glue(p);
        }
      }
    }
  }

  lemma GlueMore(first: string, sep: string, part: string, more: seq<string>)
    requires sep + part == Attached(part)
    ensures Glue([first, part] + more) == first + (sep + (part + GlueRest(more)))
  {
    assert ([first, part] + more)[1..] == [part] + more && ([part] + more)[1..] == more;
    PlusAssociates(sep, part, GlueRest(more));
  }

  lemma GluePrepend(c: char, parts: seq<string>)
    requires parts != []
    ensures Glue(Prepend(c, parts)) == [c] + Glue(parts)
  {
    assert Prepend(c, parts)[1..] == parts[1..];
    PlusAssociates([c], parts[0], GlueRest(parts[1..]));
  }

  lemma CutAttached(part: string)
    requires PartShape(part)
    ensures Attached(part) != [] && Attached(part)[0] in {'.', '['}
    ensures Cut(Attached(part)) == [[], part]
  {
    if part != [] && part[0] == '[' {
      assert Plain(part[1..]) by {
        assert !Plain(part) by {
          assert part[0] in part;
        }
      }
      CutPlain(part[1..]);
      assert ['['] + part[1..] == part;
    } else {
      CutPlain(part);
      assert ("." + part)[1..] == part;
    }
  }

  lemma FirstAndMore(parts: seq<string>)
    requires parts != []
    ensures ([[]] + parts[1..])[1..] == parts[1..] && [[], parts[0]] + parts[1..] == [[]] + parts
  {
  }

  lemma {:induction false} CutGlueRest(parts: seq<string>)
    requires parts != [] && forall p | p in parts :: PartShape(p)
    ensures GlueRest(parts) != [] && GlueRest(parts)[0] in {'.', '['}
    ensures Cut(GlueRest(parts)) == [[]] + parts
  {
    var first, more := parts[0], parts[1..];
    CutAttached(first);
    if more == [] {
      assert Attached(first) + "" == Attached(first) && parts == [first];
    } else {
      CutGlueRest(more);
      CutAppend(Attached(first), GlueRest(more));
      FirstAndMore(parts);
    }
  }

  lemma CutGlue(parts: seq<string>)
    requires PartShapes(parts)
    ensures Cut(Glue(parts)) == parts
  {
    var first, more := parts[0], parts[1..];
    CutPlain(first);
    if more == [] {
      assert first + "" == first && parts == [first];
    } else {
      CutGlueRest(more);
      CutAppend(first, GlueRest(more));
      assert ([[]] + more)[1..] == more && [first] + more == parts;
    }
  }

  /** The parts of a text are the only ones of their shape that the text consists of. */
  lemma PartsOfIff(text: string, parts: seq<string>)
    ensures PartsOf(text) == parts <==> PartShapes(parts) && Glue(parts) == text
  {
    PartsOfIsCut(text);
    if PartsOf(text) == parts {
      GlueCut(text);
      CutShapes(text);
    }
    if PartShapes(parts) && Glue(parts) == text {
      CutGlue(parts);
    }
  }

  /** `t` is `s` without the spaces around it. */
  ghost predicate Trims(s: string, t: string) {
    Trimmed(t) && exists w, x :: AllSpaces(w) && AllSpaces(x) && w + t + x == s
  }

  lemma {:induction false} StripRightSplit(s: string) returns (x: string)
    ensures AllSpaces(x) && StripRight(s) + x == s
  {
    if s != [] && IsSpace(s[|s| - 1]) {
      var y := StripRightSplit(s[..|s| - 1]);
      x := y + [s[|s| - 1]];
      assert s[..|s| - 1] + [s[|s| - 1]] == s;
    } else {
      x := [];
    }
  }

  lemma StripTrims(s: string)
    ensures Trims(s, Strip(s))
  {
    StripFacts(s);
    var w := LeadingSpaces(s);
    var x := StripRightSplit(StripLeft(s));
    PlusAssociates(w, Strip(s), x);
    assert w + Strip(s) + x == s;
  }

  lemma {:induction false} StripRightTrims(t: string, x: string)
    requires Trimmed(t) && AllSpaces(x)
    ensures StripRight(t + x) == t
  {
    if x == [] {
      assert t + x == t;
    } else {
      var front := x[..|x| - 1];
      assert x[|x| - 1] in x && (t + x)[..|t + x| - 1] == t + front;
      StripRightTrims(t, front);
    }
  }

  lemma {:induction false} StripLeftOfSpaces(w: string)
    requires AllSpaces(w)
    ensures StripLeft(w) == []
  {
    if w != [] {
      assert w[0] in w;
      StripLeftOfSpaces(w[1..]);
    }
  }

  lemma StripIff(s: string, t: string)
    ensures Strip(s) == t <==> Trims(s, t)
  {
    StripTrims(s);
    if Trims(s, t) {
      var w, x :| AllSpaces(w) && AllSpaces(x) && w + t + x == s;
      if t == [] {
        assert w + t + x == w + x;
        StripLeftOfSpaces(w + x);
      } else {
        PlusAssociates(w, t, x);
        SkipSpaces(w, t + x);
        StripRightTrims(t, x);
      }
    }
  }

  /** A part stands for an operation: bounds in brackets for a slice, any other trimmed name for a field. */
  ghost predicate Denotes(part: string, op: Op) {
    match op
    case Slice(upper, lower) => exists t :: Trims(part, t) && BoundsText(t, upper, lower)
    case Field(name) => Trims(part, name) && name != [] && name[|name| - 1] != ']'
  }

  ghost predicate StandsForSomething(part: string) {
    exists op :: Denotes(part, op)
  }

  lemma BoundsEndInBracket(t: string, upper: nat, lower: nat)
    requires BoundsText(t, upper, lower)
    ensures t != [] && t[|t| - 1] == ']'
  {
  }

  lemma DenotesIff(part: string, op: Op)
    ensures ParsePart(part) == Success(op) <==> Denotes(part, op)
  {
    var p := Strip(part);
    StripIff(part, p);
    match op
    case Field(name) => StripIff(part, name);
    case Slice(upper, lower) =>
      ParseBoundsIff(p, upper, lower);
      if ParsePart(part) == Success(op) {
        assert BoundsText(p, upper, lower);
      }
      if t :| Trims(part, t) && BoundsText(t, upper, lower) {
        StripIff(part, t);
        BoundsEndInBracket(t, upper, lower);
      }
  }

  lemma {:induction false} AllDenoteIff(parts: seq<string>, ops: seq<Op>)
    ensures ParseParts(parts) == Success(ops) <==>
            |ops| == |parts| && forall i | 0 <= i < |parts| :: Denotes(parts[i], ops[i])
  {
    ParsePartsAll(parts);
    if |ops| == |parts| && forall i | 0 <= i < |parts| :: Denotes(parts[i], ops[i]) {
      forall i | 0 <= i < |parts|
        ensures ParsePart(parts[i]) == Success(ops[i])
      {
        DenotesIff(parts[i], ops[i]);
      }
      assert ParseParts(parts).Success? && ParseParts(parts).value == ops;
    }
    if ParseParts(parts) == Success(ops) {
      forall i | 0 <= i < |parts|
        ensures Denotes(parts[i], ops[i])
      {
        DenotesIff(parts[i], ops[i]);
      }
    }
  }

  /**
   Which texts parse, and to what: the text consists of a port name and parts that stand for the
   operations, each possibly with spaces around, and no bracket is followed by spaces alone.
   */
  lemma ParseIff(text: string, s: Selector)
    ensures Parse(text) == Success(s) <==>
            && text != [] && s.port != []
            && Trims(PartsOf(text)[0], s.port)
            && |PartsOf(text)| == |s.ops| + 1
            && (forall i | 0 <= i < |s.ops| :: Denotes(PartsOf(text)[i + 1], s.ops[i]))
            && (forall p | p in PartsOf(text) :: !BlankSlice(p))
  {
    var parts := PartsOf(text);
    PartsOfIsCut(text);
    StripIff(parts[0], s.port);
    AllDenoteIff(parts[1..], s.ops);
    assert forall i | 0 <= i < |parts| - 1 :: parts[1..][i] == parts[i + 1];
  }

  /** Which error a text that does not parse is refused with: the first of these that applies. */
  lemma ParseErrorIs(text: string)
    requires Parse(text).Failure?
    ensures
      var e := Parse(text).error;
      if text == [] then e == EmptySelector
      else if exists p | p in PartsOf(text) :: BlankSlice(p) then e == InvalidBounds
      else if Trims(PartsOf(text)[0], []) then e == EmptyPort
      else exists i | 1 <= i < |PartsOf(text)| ::
        && (forall j | 1 <= j < i :: StandsForSomething(PartsOf(text)[j]))
        && e == if Trims(PartsOf(text)[i], []) then EmptyField else InvalidBounds
  {
    if text != [] {
      var parts := PartsOf(text);
      PartsOfIsCut(text);
      StripIff(parts[0], []);
      if (forall p | p in parts :: !BlankSlice(p)) && Strip(parts[0]) != [] {
        var k := FirstBad(parts[1..]);
        assert parts[1..][k] == parts[k + 1];
        StripIff(parts[k + 1], []);
        forall j | 1 <= j < k + 1
          ensures StandsForSomething(parts[j])
        {
          assert parts[1..][j - 1] == parts[j];
        }
      }
    }
  }

  /** The first part that stands for nothing decides the error. */
  lemma {:induction false} FirstBad(parts: seq<string>) returns (k: nat)
    requires ParseParts(parts).Failure?
    ensures k < |parts|
    ensures forall j | 0 <= j < k :: StandsForSomething(parts[j])
    ensures ParseParts(parts) == Failure(if Strip(parts[k]) == [] then EmptyField else InvalidBounds)
  {
    var front := parts[..|parts| - 1];
    if ParseParts(front).Failure? {
      k := FirstBad(front);
    } else {
      k := |parts| - 1;
      AllDenoteIff(front, ParseParts(front).value);
      forall j | 0 <= j < k
        ensures StandsForSomething(parts[j])
      {
        assert Denotes(front[j], ParseParts(front).value[j]);
      }
    }
  }

  // ----- What printing gives, without its steps -----

  lemma {:induction false} NoLeadingZero(n: nat)
    ensures ToDecimal(n)[0] == '0' ==> n == 0 && ToDecimal(n) == "0"
  {
    if n >= 10 {
      NoLeadingZero(n / 10);
    }
  }

  /** A part as it is printed: no spaces, a single number for bounds that are equal. */
  predicate PrintedAs(op: Op, part: string) {
    match op
    case Field(name) => part == name
    case Slice(upper, lower) =>
      if upper == lower then IndexText(part, "", ToDecimal(upper), "", upper)
      else RangeText(part, "", ToDecimal(upper), "", "", ToDecimal(lower), "", upper, lower)
  }

  lemma NoSpaces(a: string, d: string, b: string)
    ensures a + "" + d + "" + b == a + d + b
  {
  }

  lemma IndexPrintedAs(n: nat)
    ensures IndexText(PrintOp(Slice(n, n)), "", ToDecimal(n), "", n)
  {
    DecimalRoundTrip(n);
    NoSpaces("[", ToDecimal(n), "]");
  }

  lemma RangePrintedAs(upper: nat, lower: nat)
    requires upper != lower
    ensures RangeText(PrintOp(Slice(upper, lower)), "", ToDecimal(upper), "", "", ToDecimal(lower), "", upper, lower)
  {
    DecimalRoundTrip(upper);
    DecimalRoundTrip(lower);
    var head := "[" + ToDecimal(upper) + ":";
    NoSpaces("[", ToDecimal(upper), ":");
    NoSpaces(head, ToDecimal(lower), "]");
  }

  lemma OpPrintedAs(op: Op)
    requires op.Field? ==> WellFormedField(op.name)
    ensures |OpParts(op)| == 1 && PrintedAs(op, OpParts(op)[0])
  {
    match op
    case Field(name) => assert name[0] in name;
    case Slice(upper, lower) =>
      if upper == lower {
        IndexPrintedAs(upper);
      } else {
        RangePrintedAs(upper, lower);
      }
  }

  lemma {:induction false} OpsPrintedAs(ops: seq<Op>)
    requires forall op | op in ops && op.Field? :: WellFormedField(op.name)
    ensures |OpsParts(ops)| == |ops|
    ensures forall i | 0 <= i < |ops| :: PrintedAs(ops[i], OpsParts(ops)[i])
  {
    if ops != [] {
      var front, op := ops[..|ops| - 1], ops[|ops| - 1];
      assert op in ops && ops == front + [op];
      OpsPrintedAs(front);
      OpPrintedAs(op);
    }
  }

  /** The printed text consists of the port name and, in order, one printed part for each operation. */
  lemma PrintedParts(s: Selector)
    requires WellFormed(s)
    ensures
      var parts := PartsOf(Print(s));
      && Glue(parts) == Print(s)
      && |parts| == |s.ops| + 1 && parts[0] == s.port
      && forall i | 0 <= i < |s.ops| :: PrintedAs(s.ops[i], parts[i + 1])
  {
    PrintParts(s);
    OpsPrintedAs(s.ops);
    PartsOfIff(Print(s), PartsOf(Print(s)));
  }

  // ----- The loops of the source -----

  method FromStr(sel: string) returns (r: Result<Selector, Error>)
    ensures r == Parse(sel)
  {
    if sel == [] {
      return Failure(EmptySelector);
    }
    var parts := PartsOf(sel);
    for i := 0 to |parts|
      invariant forall p | p in parts[..i] :: !BlankSlice(p)
    {
      if BlankSlice(parts[i]) {
        return Failure(InvalidBounds);
      }
      assert parts[..i + 1] == parts[..i] + [parts[i]];
    }
    assert parts[..|parts|] == parts;
    if parts == [] || Strip(parts[0]) == [] {
      return Failure(EmptyPort);
    }
    var ops := OpsFrom(parts[1..]);
    if ops.Failure? {
      return Failure(ops.error);
    }
    return Success(Selector(Strip(parts[0]), ops.value));
  }

  method OpsFrom(parts: seq<string>) returns (r: Result<seq<Op>, Error>)
    ensures r == ParseParts(parts)
  {
    var ops: seq<Op> := [];
    for i := 0 to |parts|
      invariant ParseParts(parts[..i]) == Success(ops)
    {
      assert parts[..i + 1][..i] == parts[..i];
      var op := ParsePart(parts[i]);
      if op.Failure? {
        ParsePartsFails(parts, i);
        return Failure(op.error);
      }
      ops := ops + [op.value];
    }
    assert parts[..|parts|] == parts;
    return Success(ops);
  }

  /** The first part that does not parse decides the error. */
  lemma {:induction false} ParsePartsFails(parts: seq<string>, i: nat)
    requires i < |parts| && ParseParts(parts[..i]).Success? && ParsePart(parts[i]).Failure?
    ensures ParseParts(parts) == Failure(ParsePart(parts[i]).error)
  {
    var front := parts[..|parts| - 1];
    if i < |parts| - 1 {
      assert front[..i] == parts[..i];
      ParsePartsFails(front, i);
    } else {
      assert front == parts[..i];
    }
  }

  lemma PrintOneMore(port: string, ops: seq<Op>)
    requires ops != []
    ensures port + PrintOps(ops) == port + PrintOps(ops[..|ops| - 1]) + PrintOp(ops[|ops| - 1])
  {
    PlusAssociates(port, PrintOps(ops[..|ops| - 1]), PrintOp(ops[|ops| - 1]));
  }

  method ToStr(s: Selector) returns (result: string)
    ensures result == Print(s)
  {
    result := s.port;
    for i := 0 to |s.ops|
      invariant result == s.port + PrintOps(s.ops[..i])
    {
      assert s.ops[..i + 1][..i] == s.ops[..i];
      PrintOneMore(s.port, s.ops[..i + 1]);
      result := result + PrintOp(s.ops[i]);
    }
    assert s.ops[..|s.ops|] == s.ops;
  }
}
