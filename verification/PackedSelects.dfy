/**
 Bit ranges of index and range selects on packed arrays (`_packed_outer_index_pos`,
 `_select_index_range`, `_select_range_for_indices`; sections 7.4.1 and 11.5.1 of IEEE 1800).
 */
module PackedSelects {
  import opened Wrappers

  /** The declared type of a signal: `[left:right]` of elements of `elemWidth` bits, or anything else. */
  datatype SignalType = Packed(left: int, right: int, elemWidth: nat) | NotPacked

  function Width(t: SignalType): nat
    requires t.Packed?
  {
    (if t.left >= t.right then t.left - t.right else t.right - t.left) + 1
  }

  function OuterIndexPos(t: SignalType, idx: int): Option<(nat, nat)> {
    if t.NotPacked? then None
    else
      var pos := if t.left >= t.right then idx - t.right else t.right - idx;
      if pos < 0 || pos >= Width(t) then None else Some((pos, t.elemWidth))
  }

  function SelectIndexRange(t: SignalType, idx: int): Option<(int, int)> {
    match OuterIndexPos(t, idx)
    case None => if t.NotPacked? then Some((idx, idx)) else None
    case Some((pos, elemWidth)) =>
      var low := pos * elemWidth;
      Some((low, low + elemWidth - 1))
  }

  function SelectRangeForIndices(t: SignalType, leftIdx: int, rightIdx: int): Option<(int, int)> {
    match (OuterIndexPos(t, leftIdx), OuterIndexPos(t, rightIdx))
    case (Some((leftPos, elemWidth)), Some((rightPos, elemWidthRight))) =>
      if elemWidth != elemWidthRight then None
      else
        var lowPos, highPos := if leftPos <= rightPos then leftPos else rightPos,
                               if leftPos <= rightPos then rightPos else leftPos;
        var end: int := (highPos + 1) * elemWidth;
        Some((lowPos * elemWidth, end - 1))
    case _ =>
      if t.NotPacked?
      then Some(if leftIdx <= rightIdx then (leftIdx, rightIdx) else (rightIdx, leftIdx))
      else None
  }

  // ----- Tiles -----

  predicate Between(a: int, x: int, b: int) {
    (a <= x <= b) || (b <= x <= a)
  }

  /** `idx` is one of the declared indices. */
  predicate Declared(t: SignalType, idx: int) {
    t.Packed? && Between(t.left, idx, t.right)
  }

  predicate InRange(r: (int, int), b: int) {
    r.0 <= b <= r.1
  }

  lemma {:induction false} MulStep(p: nat, q: nat, w: nat)
    requires p < q
    ensures p * w + w <= q * w
    decreases q
  {
    assert q * w == (q - 1) * w + w;
    if p < q - 1 {
      MulStep(p, q - 1, w);
    }
  }

  /** The tile of width `w` that bit `b` lies in. */
  function TileOf(b: nat, w: nat): (q: nat)
    requires w > 0
    ensures q * w <= b <= q * w + w - 1
  {
    if b < w then 0
    else
      var q := TileOf(b - w, w);
      assert (q + 1) * w == q * w + w;
      q + 1
  }

  lemma {:induction false} TileUnique(b: nat, w: nat, pos: nat)
    requires w > 0
    ensures pos * w <= b <= pos * w + w - 1 <==> pos == TileOf(b, w)
  {
    var q := TileOf(b, w);
    if pos < q {
      MulStep(pos, q, w);
    } else if q < pos {
      MulStep(q, pos, w);
    }
  }

  /** Consecutive tiles cover exactly the bits between their outer ends. */
  lemma {:induction false} TilesBetween(b: nat, w: nat, low: nat, high: nat)
    requires w > 0
    ensures low * w <= b <==> low <= TileOf(b, w)
    ensures b <= high * w + w - 1 <==> TileOf(b, w) <= high
  {
    var q := TileOf(b, w);
    if low < q {
      MulStep(low, q, w);
    } else if q < low {
      MulStep(q, low, w);
    }
    if high < q {
      MulStep(high, q, w);
    } else if q < high {
      MulStep(q, high, w);
    }
  }

  /** The declared indices are exactly those with a position, and positions number them in order. */
  lemma DeclaredIff(t: SignalType, i: int)
    requires t.Packed?
    ensures Declared(t, i) <==> OuterIndexPos(t, i).Some?
    ensures Declared(t, i) ==> OuterIndexPos(t, i).value.1 == t.elemWidth
    ensures Declared(t, i) ==> IndexAt(t, OuterIndexPos(t, i).value.0) == i
  {
  }

  lemma IndexAtPosition(t: SignalType, pos: nat)
    requires t.Packed? && pos < Width(t)
    ensures Declared(t, IndexAt(t, pos)) && OuterIndexPos(t, IndexAt(t, pos)) == Some((pos, t.elemWidth))
  {
  }

  /** Position zero belongs to the right bound, and positions count the steps from there. */
  lemma PositionFromRight(t: SignalType, i: int)
    requires t.Packed?
    ensures Declared(t, i) ==>
              OuterIndexPos(t, i) == Some((if i >= t.right then i - t.right else t.right - i, t.elemWidth))
    ensures !Declared(t, i) ==> OuterIndexPos(t, i) == None
  {
  }

  /** Indices of anything but a packed array are bit positions themselves. */
  lemma PlainSelects(l: int, r: int)
    ensures OuterIndexPos(NotPacked, l) == None && SelectIndexRange(NotPacked, l) == Some((l, l))
    ensures SelectRangeForIndices(NotPacked, l, r).Some?
    ensures forall b :: InRange(SelectRangeForIndices(NotPacked, l, r).value, b) <==> Between(l, b, r)
  {
  }

  lemma PositionsAreBijective(t: SignalType)
    requires t.Packed?
    ensures forall i :: Declared(t, i) <==> OuterIndexPos(t, i).Some?
    ensures forall i, j | Declared(t, i) && Declared(t, j) && OuterIndexPos(t, i) == OuterIndexPos(t, j) :: i == j
    ensures forall pos: nat | pos < Width(t) ::
              Declared(t, IndexAt(t, pos)) && OuterIndexPos(t, IndexAt(t, pos)) == Some((pos, t.elemWidth))
  {
    forall i
      ensures Declared(t, i) <==> OuterIndexPos(t, i).Some?
      ensures Declared(t, i) ==> IndexAt(t, OuterIndexPos(t, i).value.0) == i
    {
      DeclaredIff(t, i);
    }
    forall pos: nat | pos < Width(t)
      ensures Declared(t, IndexAt(t, pos)) && OuterIndexPos(t, IndexAt(t, pos)) == Some((pos, t.elemWidth))
    {
      IndexAtPosition(t, pos);
    }
  }

  function IndexAt(t: SignalType, pos: nat): int
    requires t.Packed?
  {
    if t.left >= t.right then t.right + pos else t.right - pos
  }

  /** Bit `b` lies in the tile of index `i`. */
  predicate InTile(t: SignalType, i: int, b: nat) {
    Declared(t, i) && SelectIndexRange(t, i).Some? && InRange(SelectIndexRange(t, i).value, b)
  }

  lemma {:induction false} InTileAt(t: SignalType, i: int, b: nat)
    requires t.Packed?
    ensures t.elemWidth == 0 ==> !InTile(t, i, b)
    ensures t.elemWidth > 0 ==> (InTile(t, i, b) <==> Declared(t, i) && i == IndexAt(t, TileOf(b, t.elemWidth)))
  {
    if Declared(t, i) && t.elemWidth > 0 {
      TileUnique(b, t.elemWidth, OuterIndexPos(t, i).value.0);
    }
  }

  /** Every bit of the array lies in the tile of exactly one index; bits outside lie in none. */
  lemma {:induction false} TilesPartition(t: SignalType, b: nat)
    requires t.Packed?
    ensures b < Width(t) * t.elemWidth <==> exists i :: InTile(t, i, b)
    ensures forall i, j | InTile(t, i, b) && InTile(t, j, b) :: i == j
  {
    var w := t.elemWidth;
    forall i
      ensures InTile(t, i, b) <==> w > 0 && Declared(t, i) && i == IndexAt(t, TileOf(b, w))
    {
      InTileAt(t, i, b);
    }
    if w > 0 {
      TilesBetween(b, w, 0, Width(t) - 1);
      assert (Width(t) - 1) * w + w == Width(t) * w;
      var i := IndexAt(t, TileOf(b, w));
      assert Declared(t, i) <==> TileOf(b, w) <= Width(t) - 1;
      assert InTile(t, i, b) <==> Declared(t, i);
    }
  }

  /** The bits of a range select, by tile number. */
  lemma {:induction false} RangeCovers(t: SignalType, l: int, r: int, b: nat)
    requires Declared(t, l) && Declared(t, r)
    ensures t.elemWidth == 0 ==> !InRange(SelectRangeForIndices(t, l, r).value, b)
    ensures t.elemWidth > 0 ==>
              (InRange(SelectRangeForIndices(t, l, r).value, b) <==> Between(l, IndexAt(t, TileOf(b, t.elemWidth)), r))
  {
    var w := t.elemWidth;
    var p, q := OuterIndexPos(t, l).value.0, OuterIndexPos(t, r).value.0;
    var low, high := if p <= q then p else q, if p <= q then q else p;
    assert (high + 1) * w == high * w + w;
    if w > 0 {
      TilesBetween(b, w, low, high);
    }
  }

  /**
   A range select covers exactly the tiles of the indices between its bounds, in either direction
   of declaration and of selection, and is refused exactly when a bound is not declared.
   */
  lemma {:induction false} RangeIsUnionOfTiles(t: SignalType, l: int, r: int, b: nat)
    requires t.Packed?
    ensures SelectRangeForIndices(t, l, r).Some? <==> Declared(t, l) && Declared(t, r)
    ensures Declared(t, l) && Declared(t, r) ==>
              (InRange(SelectRangeForIndices(t, l, r).value, b) <==> exists i | Between(l, i, r) :: InTile(t, i, b))
  {
    if Declared(t, l) && Declared(t, r) {
      RangeCovers(t, l, r, b);
      forall i
        ensures InTile(t, i, b) <==>
                t.elemWidth > 0 && Declared(t, i) && i == IndexAt(t, TileOf(b, t.elemWidth))
      {
        InTileAt(t, i, b);
      }
      if t.elemWidth > 0 {
        var i := IndexAt(t, TileOf(b, t.elemWidth));
        assert Between(l, i, r) ==> InTile(t, i, b);
      }
    }
  }
}
