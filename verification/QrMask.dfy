/**
 Masking (ISO/IEC 18004:2000, 8.8): applying a mask, and the trial of all eight
 in the one buffer.
 */
module QrMask {
  import opened QrGrid
  import opened QrPenalty

  predicate MaskBit(mask: nat, x: nat, y: nat) {
    if mask == 0 then (x + y) % 2 == 0
    else if mask == 1 then y % 2 == 0
    else if mask == 2 then x % 3 == 0
    else if mask == 3 then (x + y) % 3 == 0
    else if mask == 4 then (x / 3 + y / 2) % 2 == 0
    else if mask == 5 then (x * y) % 2 + (x * y) % 3 == 0
    else if mask == 6 then ((x * y) % 2 + (x * y) % 3) % 2 == 0
    else ((x + y) % 2 + (x * y) % 3) % 2 == 0
  }

  function Toggle(c: bv8): bv8 { c ^ CELL_DARK }

  lemma ToggleBits(c: bv8)
    ensures Func(Toggle(c)) == Func(c) && Dark(Toggle(c)) == !Dark(c) && Toggle(Toggle(c)) == c
  {}

  function MaskedCell(c: bv8, mask: nat, x: nat, y: nat): bv8 {
    if !Func(c) && MaskBit(mask, x, y) then Toggle(c) else c
  }

  // Masking inverts, so masking twice restores every cell.
  lemma MaskTwice(c: bv8, mask: nat, x: nat, y: nat)
    ensures MaskedCell(MaskedCell(c, mask, x, y), mask, x, y) == c
  {
    ToggleBits(c);
    hide MaskBit, Toggle, Func;
  }

  method ApplyMask(m: array<bv8>, size: nat, mask: nat)
    requires Fits(m, size) && mask < 8
    modifies m
    ensures forall x, y :: InGrid(size, x, y) ==>
              CellAt(m[..], size, x, y) == MaskedCell(CellAt(old(m[..]), size, x, y), mask, x, y)
    ensures m[size * size..] == old(m[size * size..])
  {
    hide CellAt, MaskedCell, MaskBit;
    for y := 0 to size
      invariant forall x', y' :: InGrid(size, x', y') ==>
                  CellAt(m[..], size, x', y') ==
                  if y' < y then MaskedCell(CellAt(old(m[..]), size, x', y'), mask, x', y') else CellAt(old(m[..]), size, x', y')
      invariant m[size * size..] == old(m[size * size..])
    {
      for x := 0 to size
        invariant forall x', y' :: InGrid(size, x', y') ==>
                    CellAt(m[..], size, x', y') ==
                    if y' < y || (y' == y && x' < x) then MaskedCell(CellAt(old(m[..]), size, x', y'), mask, x', y')
                    else CellAt(old(m[..]), size, x', y')
        invariant m[size * size..] == old(m[size * size..])
      {
        var c := ReadCell(m, size, x, y);
        MaskedCases(c, mask, x, y);
        if !Func(c) && MaskBit(mask, x, y) {
          Put(m, size, x, y, Toggle(c));
        }
      }
    }
  }

  lemma MaskedCases(c: bv8, mask: nat, x: nat, y: nat)
    ensures MaskedCell(c, mask, x, y) == if !Func(c) && MaskBit(mask, x, y) then Toggle(c) else c
  {}

  // The cell that a mask trial shows: format modules redrawn, data modules masked.
  function EmittedCell(g: seq<bv8>, size: nat, mask: nat, x: int, y: int): bv8
    requires size * size <= |g| && InGrid(size, x, y)
  {
    if FormatIndex(size, x, y) >= 0 then FuncCell(FormatDark(mask, FormatIndex(size, x, y)))
    else MaskedCell(CellAt(g, size, x, y), mask, x, y)
  }

  ghost predicate Emitted(m: seq<bv8>, g: seq<bv8>, size: nat, mask: nat)
  {
    size * size <= |g| == |m| && m[size * size..] == g[size * size..] &&
    forall x, y :: InGrid(size, x, y) ==> CellAt(m, size, x, y) == EmittedCell(g, size, mask, x, y)
  }

  // The trial symbol depends only on the cells outside the format modules.
  ghost predicate SameData(m: seq<bv8>, g: seq<bv8>, size: nat)
  {
    size * size <= |g| == |m| && m[size * size..] == g[size * size..] &&
    (forall x, y :: InGrid(size, x, y) && FormatIndex(size, x, y) < 0 ==> CellAt(m, size, x, y) == CellAt(g, size, x, y)) &&
    forall x, y :: InGrid(size, x, y) && FormatIndex(size, x, y) >= 0 ==> Func(CellAt(m, size, x, y))
  }

  lemma EmittedUnique(m: seq<bv8>, m': seq<bv8>, g: seq<bv8>, size: nat, mask: nat)
    requires Emitted(m, g, size, mask) && Emitted(m', g, size, mask)
    ensures m == m'
  {
    hide EmittedCell;
    forall k | 0 <= k < |m| ensures m[k] == m'[k] {
      if k < size * size {
        var x, y := IdxCovers(size, k);
        assert CellAt(m, size, x, y) == CellAt(m', size, x, y);
      } else {
        assert m[k] == m[size * size..][k - size * size];
        assert m'[k] == m'[size * size..][k - size * size];
      }
    }
  }

  // One trial: mask, draw the format, look, unmask.
  method Trial(m: array<bv8>, ghost g: seq<bv8>, size: nat, mask: nat) returns (score: int, ghost shown: seq<bv8>)
    requires size * size <= m.Length && size >= 21 && mask < 8 && SameData(m[..], g, size)
    modifies m
    ensures SameData(m[..], g, size)
    ensures Emitted(shown, g, size, mask) && score == Penalty(shown, size)
  {
    hide CellAt, MaskedCell, FuncCell, FormatDark, FormatIndex, Penalty;
    ghost var m0 := m[..];
    ApplyMask(m, size, mask);
    DrawFormat(m, size, mask);
    shown := m[..];
    ghost var m1 := m[..];
    assert Emitted(shown, g, size, mask);
    score := PenaltyScore(m, size);
    ApplyMask(m, size, mask);
    forall x, y | InGrid(size, x, y)
      ensures FormatIndex(size, x, y) < 0 ==> CellAt(m[..], size, x, y) == CellAt(m0, size, x, y)
      ensures FormatIndex(size, x, y) >= 0 ==> Func(CellAt(m[..], size, x, y))
    {
      MaskTwice(CellAt(m0, size, x, y), mask, x, y);
      if FormatIndex(size, x, y) >= 0 {
        FuncCellBits(FormatDark(mask, FormatIndex(size, x, y)));
        MaskedCases(CellAt(m1, size, x, y), mask, x, y);
      }
    }
  }

  // The mask of least penalty, the lowest such mask on ties.
  ghost predicate BestMask(g: seq<bv8>, size: nat, best: nat) {
    size > 0 && best < 8 &&
    forall mask: nat, shown, shown' ::
      mask < 8 && Emitted(shown, g, size, best) && Emitted(shown', g, size, mask)
      ==> size * size <= |shown| && size * size <= |shown'|
          && Penalty(shown, size) <= Penalty(shown', size)
          && (mask < best ==> Penalty(shown, size) < Penalty(shown', size))
  }

  method ChooseMask(m: array<bv8>, size: nat) returns (best: nat)
    requires Fits(m, size) && size >= 21 && size % 2 == 1 && SameData(m[..], m[..], size)
    modifies m
    ensures SameData(m[..], old(m[..]), size)
    ensures BestMask(old(m[..]), size, best)
  {
    hide Penalty, SameData, Emitted;
    ghost var g := m[..];
    ghost var shown: seq<seq<bv8>> := [];
    best := 0;
    var bestScore := -1;
    for mask := 0 to 8
      invariant SameData(m[..], g, size) && |shown| == mask
      invariant forall k: nat :: k < mask ==> Emitted(shown[k], g, size, k) && size * size <= |shown[k]|
      invariant mask == 0 ==> bestScore == -1
      invariant mask > 0 ==> best < mask && bestScore == Penalty(shown[best], size) >= 0
      invariant forall k: nat :: k < mask ==> bestScore <= Penalty(shown[k], size)
      invariant forall k: nat :: k < best && k < mask ==> bestScore < Penalty(shown[k], size)
    {
      var score: int;
      ghost var s: seq<bv8>;
      score, s := Trial(m, g, size, mask);
      shown := shown + [s];
      EmittedArea(s, g, size, mask);
      PenaltyNonnegative(s, size);
      if bestScore < 0 || score < bestScore {
        bestScore := score;
        best := mask;
      }
    }
    forall mask: nat, s, s' | mask < 8 && Emitted(s, g, size, best) && Emitted(s', g, size, mask)
      ensures |s| >= size * size && |s'| >= size * size
      ensures Penalty(s, size) <= Penalty(s', size) && (mask < best ==> Penalty(s, size) < Penalty(s', size))
    {
      EmittedArea(s, g, size, best);
      EmittedArea(s', g, size, mask);
      EmittedUnique(s, shown[best], g, size, best);
      EmittedUnique(s', shown[mask], g, size, mask);
    }
  }

  lemma EmittedArea(s: seq<bv8>, g: seq<bv8>, size: nat, mask: nat)
    requires Emitted(s, g, size, mask)
    ensures size * size <= |s|
  {}
}
