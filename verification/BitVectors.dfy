/**
 Fixed-width values and the string-based CONCAT and REPL_CONCAT of `_eval_param`, against their
 arithmetic meaning (sections 11.4.12 and 11.4.12.1 of IEEE 1800). The hexadecimal text that
 carries a value between operations is read as the number it denotes.
 */
module BitVectors {
  import opened Wrappers

  datatype BitVector = BitVector(value: nat, width: nat)

  function Pow2(n: nat): (p: nat)
    ensures p >= 1
  {
    if n == 0 then 1 else 2 * Pow2(n - 1)
  }

  // ----- Binary texts, most significant digit first -----

  type Binary = s: string | forall c | c in s :: c == '0' || c == '1'

  function Digit(b: nat): Binary
    requires b < 2
  {
    if b == 0 then "0" else "1"
  }

  /** `bin(n)` without its prefix: at least one digit, even for zero. */
  function ToBinary(n: nat): (s: Binary)
    ensures |s| >= 1
  {
    if n < 2 then Digit(n) else ToBinary(n / 2) + Digit(n % 2)
  }

  function FromBinary(s: Binary): nat {
    if s == [] then 0
    else
      assert s[|s| - 1] in s;
      2 * FromBinary(s[..|s| - 1]) + if s[|s| - 1] == '1' then 1 else 0
  }

  function Zeros(n: nat): Binary {
    seq(n, _ => '0')
  }

  function ZFill(s: Binary, width: nat): Binary {
    if |s| >= width then s else Zeros(width - |s|) + s
  }

  function Repeat(s: Binary, n: int): Binary {
    if n <= 0 then [] else Repeat(s, n - 1) + s
  }

  function Padded(v: BitVector): Binary {
    ZFill(ToBinary(v.value), v.width)
  }

  // ----- The operations -----

  function Concat(l: BitVector, r: BitVector): BitVector {
    BitVector(FromBinary(Padded(l) + Padded(r)), l.width + r.width)
  }

  /** `int("", 2)` raises, which is what a repetition without copies leads to. */
  function ReplConcat(repeat: int, v: BitVector): Option<BitVector> {
    var digits := Repeat(Padded(v), repeat);
    if digits == [] || repeat < 0 then None else Some(BitVector(FromBinary(digits), repeat * v.width))
  }

  /** A value that its width can hold; no value has width zero. */
  predicate Fits(v: BitVector) {
    v.width >= 1 && v.value < Pow2(v.width)
  }

  // ----- Digits and values -----

  lemma {:induction false} ToBinaryDenotes(n: nat)
    ensures FromBinary(ToBinary(n)) == n
  {
    if n >= 2 {
      ToBinaryDenotes(n / 2);
      assert (ToBinary(n / 2) + Digit(n % 2))[..|ToBinary(n)| - 1] == ToBinary(n / 2);
    }
  }

  lemma ShiftedByOne(x: nat, p: nat, y: nat, digit: nat)
    ensures 2 * (x * p + y) + digit == x * (2 * p) + (2 * y + digit)
  {
    assert x * (2 * p) == 2 * (x * p);
  }

  lemma {:induction false} FromBinaryAppend(a: Binary, b: Binary)
    ensures FromBinary(a + b) == FromBinary(a) * Pow2(|b|) + FromBinary(b)
  {
    if b == [] {
      assert a + b == a;
    } else {
      var front := b[..|b| - 1];
      var digit := if b[|b| - 1] == '1' then 1 else 0;
      assert (a + b)[..|a + b| - 1] == a + front;
      assert FromBinary(a + b) == 2 * FromBinary(a + front) + digit;
      FromBinaryAppend(a, front);
      ShiftedByOne(FromBinary(a), Pow2(|front|), FromBinary(front), digit);
    }
  }

  lemma {:induction false} ZerosDenote(n: nat)
    ensures FromBinary(Zeros(n)) == 0
  {
    if n > 0 {
      assert Zeros(n)[..n - 1] == Zeros(n - 1);
      ZerosDenote(n - 1);
    }
  }

  lemma PaddedDenotes(v: BitVector)
    ensures FromBinary(Padded(v)) == v.value
  {
    var s := ToBinary(v.value);
    ToBinaryDenotes(v.value);
    if |s| < v.width {
      FromBinaryAppend(Zeros(v.width - |s|), s);
      ZerosDenote(v.width - |s|);
      assert 0 * Pow2(|s|) == 0;
    }
  }

  /** A number needs no more than `w` digits exactly when it is below `2^w`, one digit being the least. */
  lemma {:induction false} DigitsNeeded(n: nat, w: nat)
    ensures |ToBinary(n)| <= w <==> w >= 1 && n < Pow2(w)
  {
    if w == 0 {
    } else if n < 2 {
      assert Pow2(w) == 2 * Pow2(w - 1);
    } else {
      DigitsNeeded(n / 2, w - 1);
      assert Pow2(w) == 2 * Pow2(w - 1);
    }
  }

  lemma PaddedLength(v: BitVector)
    ensures |Padded(v)| >= v.width
    ensures |Padded(v)| == v.width <==> Fits(v)
  {
    DigitsNeeded(v.value, v.width);
  }

  lemma {:induction false} Pow2Adds(m: nat, n: nat)
    ensures Pow2(m + n) == Pow2(m) * Pow2(n)
  {
    if m > 0 {
      Pow2Adds(m - 1, n);
      assert 2 * (Pow2(m - 1) * Pow2(n)) == (2 * Pow2(m - 1)) * Pow2(n);
    }
  }

  lemma {:induction false} Pow2Increases(m: nat, n: nat)
    requires m < n
    ensures Pow2(m) < Pow2(n)
  {
    if m < n - 1 {
      Pow2Increases(m, n - 1);
    }
  }

  // ----- Main results -----

  /**
   The arithmetic meaning of a concatenation holds exactly when the right operand fits its width
   (which has at least one bit) or there is nothing to its left.
   */
  lemma ConcatValueIff(l: BitVector, r: BitVector)
    ensures Concat(l, r).value == l.value * Pow2(r.width) + r.value <==> l.value == 0 || Fits(r)
  {
    FromBinaryAppend(Padded(l), Padded(r));
    PaddedDenotes(l);
    PaddedDenotes(r);
    PaddedLength(r);
    if !Fits(r) {
      Pow2Increases(r.width, |Padded(r)|);
      SameProductIff(l.value, Pow2(r.width), Pow2(|Padded(r)|));
    }
  }

  /** `d` is the number of digits that stand for an operand: its width, or more if the value needs more. */
  predicate TakesDigits(v: BitVector, d: nat) {
    && d >= 1 && d >= v.width && v.value < Pow2(d)
    && (d == v.width || d == 1 || Pow2(d - 1) <= v.value)
  }

  lemma {:induction false} DigitsTaken(v: BitVector, d: nat)
    requires TakesDigits(v, d)
    ensures |Padded(v)| == d
  {
    DigitsNeeded(v.value, d);
    DigitsNeeded(v.value, d - 1);
  }

  /** What a concatenation is for any operands, fitting or not. */
  lemma ConcatIs(l: BitVector, r: BitVector, d: nat)
    requires TakesDigits(r, d)
    ensures Concat(l, r).value == l.value * Pow2(d) + r.value
    ensures Concat(l, r).width == l.width + r.width
  {
    FromBinaryAppend(Padded(l), Padded(r));
    PaddedDenotes(l);
    PaddedDenotes(r);
    DigitsTaken(r, d);
  }

  /** The literal `2'd5` is too wide for its width: after `1'b1` it gives 13, not 9. */
  lemma OverwideOperandExample()
    ensures Concat(BitVector(1, 1), BitVector(5, 2)) == BitVector(13, 3)
    ensures 13 != 1 * Pow2(2) + 5
  {
    assert ToBinary(2) == ToBinary(1) + "0" == "10";
    assert ToBinary(5) == ToBinary(2) + "1" == "101";
    FromBinaryAppend("1", "101");
    PaddedDenotes(BitVector(1, 1));
    PaddedDenotes(BitVector(5, 2));
    assert Pow2(2) == 2 * Pow2(1) && Pow2(3) == 2 * Pow2(2);
  }

  lemma SameProductIff(k: nat, a: nat, b: nat)
    requires a < b
    ensures k * a == k * b <==> k == 0
  {
    if k > 0 {
      MulIncreases(k, a, b);
    }
  }

  lemma MulIncreases(k: nat, a: nat, b: nat)
    requires k > 0 && a < b
    ensures k * a < k * b
  {
    assert k * b == k * a + k * (b - a);
    assert k * (b - a) > 0;
  }

  lemma BelowProduct(x: nat, a: nat, y: nat, b: nat)
    requires x < a && y < b
    ensures x * b + y < a * b
  {
    assert x * b + b == (x + 1) * b;
    if x + 1 < a {
      MulIncreases(b, x + 1, a);
      assert b * (x + 1) == (x + 1) * b && b * a == a * b;
    }
  }

  lemma ConcatFits(l: BitVector, r: BitVector)
    requires Fits(l) && Fits(r)
    ensures Fits(Concat(l, r))
    ensures Concat(l, r).value == l.value * Pow2(r.width) + r.value
    ensures Concat(l, r).width == l.width + r.width
  {
    ConcatValueIff(l, r);
    SplitFits(l.value, l.width, r.value, r.width);
  }

  lemma SplitFits(x: nat, m: nat, y: nat, n: nat)
    requires x < Pow2(m) && y < Pow2(n)
    ensures x * Pow2(n) + y < Pow2(m + n)
  {
    Pow2Adds(m, n);
    BelowProduct(x, Pow2(m), y, Pow2(n));
  }

  lemma Regroup(a: nat, b: nat, c: nat, m: nat, n: nat)
    ensures (a * Pow2(m) + b) * Pow2(n) + c == a * Pow2(m + n) + (b * Pow2(n) + c)
  {
    Pow2Adds(m, n);
    Distribute(a, Pow2(m), b, Pow2(n));
  }

  lemma Distribute(a: nat, p: nat, b: nat, q: nat)
    ensures (a * p + b) * q == a * (p * q) + b * q
  {
    assert a * p * q == a * (p * q);
  }

  lemma ConcatAssociative(a: BitVector, b: BitVector, c: BitVector)
    requires Fits(a) && Fits(b) && Fits(c)
    ensures Concat(Concat(a, b), c) == Concat(a, Concat(b, c))
  {
    ConcatFits(a, b);
    ConcatFits(b, c);
    var ab, bc := Concat(a, b), Concat(b, c);
    ConcatFits(ab, c);
    ConcatFits(a, bc);
    Regroup(a.value, b.value, c.value, b.width, c.width);
    assert Concat(ab, c).width == Concat(a, bc).width;
  }

  /** `n` copies joined one by one. */
  function Copies(n: nat, v: BitVector): BitVector
    requires n >= 1
  {
    if n == 1 then v else Concat(Copies(n - 1, v), v)
  }

  lemma {:induction false} CopiesDenote(n: nat, v: BitVector)
    requires n >= 1 && Fits(v)
    ensures Fits(Copies(n, v)) && Copies(n, v).width == n * v.width
    ensures Copies(n, v).value == FromBinary(Repeat(Padded(v), n))
  {
    PaddedDenotes(v);
    if n == 1 {
      assert Repeat(Padded(v), 0) + Padded(v) == Padded(v);
    } else {
      CopiesDenote(n - 1, v);
      ConcatFits(Copies(n - 1, v), v);
      FromBinaryAppend(Repeat(Padded(v), n - 1), Padded(v));
      PaddedLength(v);
      assert (n - 1) * v.width + v.width == n * v.width;
    }
  }

  lemma {:induction false} RepeatEmptyIff(s: Binary, n: int)
    requires s != []
    ensures Repeat(s, n) == [] <==> n <= 0
  {
  }

  /** What a repetition is for any operand: each copy moves those before it to the left of its digits. */
  lemma ReplConcatIs(n: int, v: BitVector, d: nat)
    requires TakesDigits(v, d)
    ensures n <= 0 ==> ReplConcat(n, v) == None
    ensures ReplConcat(1, v) == Some(v)
    ensures n >= 1 ==>
              && ReplConcat(n, v).Some? && ReplConcat(n + 1, v).Some?
              && ReplConcat(n + 1, v).value.value == ReplConcat(n, v).value.value * Pow2(d) + v.value
              && ReplConcat(n + 1, v).value.width == ReplConcat(n, v).value.width + v.width
  {
    RepeatEmptyIff(Padded(v), n);
    assert Repeat(Padded(v), 0) + Padded(v) == Padded(v);
    PaddedDenotes(v);
    if n >= 1 {
      FromBinaryAppend(Repeat(Padded(v), n), Padded(v));
      DigitsTaken(v, d);
      assert (n + 1) * v.width == n * v.width + v.width;
    }
  }

  /** Repetition is defined for positive counts only, where it is repeated concatenation and fits. */
  lemma ReplConcatIsCopies(n: int, v: BitVector)
    ensures ReplConcat(n, v).None? <==> n <= 0
    ensures n >= 1 && Fits(v) ==> ReplConcat(n, v) == Some(Copies(n, v)) && Fits(Copies(n, v))
  {
    RepeatEmptyIff(Padded(v), n);
    if n >= 1 && Fits(v) {
      CopiesDenote(n, v);
    }
  }
}
