/**
 The module matrix and its function patterns (ISO/IEC 18004:2000, 8.7 and 8.9).

 As in the source, the matrix is one flat byte array; while the symbol is built,
 bit 0 of a cell means dark and bit 1 means function module. Each drawing
 routine is specified cell by cell, and the whole is a declarative picture:
 which cells are function modules, and which of those are dark.
 */
module QrGrid {

  const CELL_DARK: bv8 := 0x01
  const CELL_FUNC: bv8 := 0x02

  function Size(version: nat): nat { 4 * version + 17 }

  predicate InGrid(size: nat, x: int, y: int) { 0 <= x < size && 0 <= y < size }

  function Idx(size: nat, x: int, y: int): int { y * size + x }

  predicate Dark(c: bv8) { c & CELL_DARK != 0 }
  predicate Func(c: bv8) { c & CELL_FUNC != 0 }
  function FuncCell(dark: bool): bv8 { CELL_FUNC | (if dark then CELL_DARK else 0) }

  lemma FuncCellBits(dark: bool)
    ensures Func(FuncCell(dark)) && Dark(FuncCell(dark)) == dark
  {}

  lemma {:induction false} RowsBefore(a: nat, b: nat, size: nat)
    requires a <= b
    ensures a * size <= b * size
    decreases b
  {
    if a < b {
      RowsBefore(a, b - 1, size);
      assert b * size == (b - 1) * size + size;
    }
  }

  lemma IdxInRange(size: nat, x: int, y: int)
    requires InGrid(size, x, y)
    ensures 0 <= Idx(size, x, y) < size * size
  {
    RowsBefore(0, y, size);
    RowsBefore(y + 1, size, size);
    assert (y + 1) * size == y * size + size;
  }

  lemma IdxInjective(size: nat, x: int, y: int, x': int, y': int)
    requires InGrid(size, x, y) && InGrid(size, x', y')
    ensures Idx(size, x, y) == Idx(size, x', y') <==> x == x' && y == y'
  {
    if y < y' {
      RowsBefore(y + 1, y', size);
      assert (y + 1) * size == y * size + size;
    } else if y' < y {
      RowsBefore(y' + 1, y, size);
      assert (y' + 1) * size == y' * size + size;
    }
  }

  // Every index of the matrix is a cell.
  lemma IdxCovers(size: nat, k: int) returns (x: int, y: int)
    requires 0 <= k < size * size
    ensures InGrid(size, x, y) && k == Idx(size, x, y)
  {
    x, y := k % size, k / size;
    assert y >= size ==> y * size >= size * size;
  }

  ghost predicate Fits(m: array<bv8>, size: nat) { 0 <= size * size <= m.Length }

  function CellAt(g: seq<bv8>, size: nat, x: int, y: int): bv8
    requires size * size <= |g| && InGrid(size, x, y)
  {
    IdxInRange(size, x, y);
    g[Idx(size, x, y)]
  }

  function ReadCell(m: array<bv8>, size: nat, x: int, y: int): (c: bv8)
    requires Fits(m, size) && InGrid(size, x, y)
    reads m
    ensures c == CellAt(m[..], size, x, y)
  {
    IdxInRange(size, x, y);
    m[Idx(size, x, y)]
  }

  method Put(m: array<bv8>, size: nat, x: int, y: int, c: bv8)
    requires Fits(m, size) && InGrid(size, x, y)
    modifies m
    ensures forall x', y' :: InGrid(size, x', y') ==>
              CellAt(m[..], size, x', y') == if x' == x && y' == y then c else CellAt(old(m[..]), size, x', y')
    ensures m[size * size..] == old(m[size * size..])
  {
    IdxInRange(size, x, y);
    m[Idx(size, x, y)] := c;
    forall x', y' | InGrid(size, x', y')
      ensures CellAt(m[..], size, x', y') == if x' == x && y' == y then c else CellAt(old(m[..]), size, x', y')
    {
      IdxInjective(size, x, y, x', y');
      IdxInRange(size, x', y');
    }
  }

  method SetCell(m: array<bv8>, size: nat, x: int, y: int, dark: bool)
    requires Fits(m, size)
    modifies m
    ensures forall x', y' :: InGrid(size, x', y') ==>
              CellAt(m[..], size, x', y')
              == if x' == x && y' == y then FuncCell(dark) else CellAt(old(m[..]), size, x', y')
    ensures m[size * size..] == old(m[size * size..])
  {
    hide CellAt, FuncCell;
    if x < 0 || y < 0 || x >= size || y >= size {
      return;
    }
    Put(m, size, x, y, FuncCell(dark));
  }

  // ---- finder and alignment patterns ----

  function Abs(n: int): nat { if n < 0 then -n else n }
  function Max(a: int, b: int): int { if a > b then a else b }
  function Distance(x: int, y: int, cx: int, cy: int): int { Max(Abs(x - cx), Abs(y - cy)) }

  method DrawSquare(m: array<bv8>, size: nat, cx: int, cy: int, radius: int, light: set<int>)
    requires Fits(m, size) && radius >= 0
    modifies m
    ensures forall x, y :: InGrid(size, x, y) ==>
              CellAt(m[..], size, x, y)
              == if Distance(x, y, cx, cy) <= radius then FuncCell(Distance(x, y, cx, cy) !in light)
                 else CellAt(old(m[..]), size, x, y)
    ensures m[size * size..] == old(m[size * size..])
  {
    hide CellAt, FuncCell;
    var dy: int := -radius;
    while dy <= radius
      invariant -radius <= dy <= radius + 1
      invariant forall x, y :: InGrid(size, x, y) ==>
                  CellAt(m[..], size, x, y)
                  == if Distance(x, y, cx, cy) <= radius && y - cy < dy then FuncCell(Distance(x, y, cx, cy) !in light)
                     else CellAt(old(m[..]), size, x, y)
      invariant m[size * size..] == old(m[size * size..])
    {
      var dx: int := -radius;
      while dx <= radius
        invariant -radius <= dx <= radius + 1
        invariant forall x, y :: InGrid(size, x, y) ==>
                    CellAt(m[..], size, x, y)
                    == if Distance(x, y, cx, cy) <= radius && (y - cy < dy || (y - cy == dy && x - cx < dx))
                       then FuncCell(Distance(x, y, cx, cy) !in light)
                       else CellAt(old(m[..]), size, x, y)
        invariant m[size * size..] == old(m[size * size..])
      {
        SetCell(m, size, cx + dx, cy + dy, Max(Abs(dx), Abs(dy)) !in light);
        dx := dx + 1;
      }
      dy := dy + 1;
    }
  }

  // ---- format information ----

  // The level L format words of masks 0 to 7, BCH bits and fixed mask included.
  function FormatWord(mask: nat): bv32 {
    if mask == 0 then 0x77C4 else if mask == 1 then 0x72F3 else if mask == 2 then 0x7DAA
    else if mask == 3 then 0x789D else if mask == 4 then 0x662F else if mask == 5 then 0x6318
    else if mask == 6 then 0x6C41 else 0x6976
  }

  function MaskBits(mask: nat): bv32 {
    if mask == 0 then 0 else if mask == 1 then 1 else if mask == 2 then 2 else if mask == 3 then 3
    else if mask == 4 then 4 else if mask == 5 then 5 else if mask == 6 then 6 else 7
  }

  predicate FormatBit(mask: nat, i: nat)
    requires i < 15
  {
    (FormatWord(mask) >> i) & 1 != 0
  }

  function BchStep(rem: bv32): bv32 { (rem << 1) ^ ((rem >> 9) * 0x537) }

  function Bch(data: bv32, n: nat): bv32 {
    if n == 0 then data else BchStep(Bch(data, n - 1))
  }

  // Five data bits, ten BCH bits, and the fixed mask.
  function Bch15(mask: nat): bv32 {
    var data := (1 << 3) | MaskBits(mask);
    ((data << 10) | Bch(data, 10)) ^ 0x5412
  }

  lemma {:induction false} BchUnrolled(d: bv32)
    ensures Bch(d, 10) == BchStep(BchStep(BchStep(BchStep(BchStep(
                          BchStep(BchStep(BchStep(BchStep(BchStep(d))))))))))
  {
    hide BchStep;
    assert Bch(d, 0) == d && Bch(d, 1) == BchStep(Bch(d, 0)) && Bch(d, 2) == BchStep(Bch(d, 1));
    assert Bch(d, 4) == BchStep(BchStep(Bch(d, 2)));
    assert Bch(d, 6) == BchStep(BchStep(Bch(d, 4)));
    assert Bch(d, 8) == BchStep(BchStep(Bch(d, 6)));
  }

  lemma FormatIsBch(mask: nat)
    requires mask < 8
    ensures Bch15(mask) == FormatWord(mask)
  {
    BchUnrolled(8 | MaskBits(mask));
    match mask {
      case 0 => case 1 => case 2 => case 3 => case 4 => case 5 => case 6 => case 7 =>
    }
  }

  // What is left of a 15-bit word after k steps of dividing it by the generator
  // x^10 + x^8 + x^5 + x^4 + x^2 + x + 1 of the BCH(15,5) code.
  function Residue(w: bv32, k: nat): bv32
    requires k <= 5
  {
    if k == 0 then w
    else
      var r := Residue(w, k - 1);
      if (r >> (15 - k)) & 1 != 0 then r ^ (0x537 << (5 - k)) else r
  }

  // Without the fixed mask, the word is the codeword of level L and the mask:
  // a multiple of the generator with those five bits in front.
  lemma FormatIsCodeword(mask: nat)
    requires mask < 8
    ensures Residue(FormatWord(mask) ^ 0x5412, 5) == 0
    ensures (FormatWord(mask) ^ 0x5412) >> 10 == 8 | MaskBits(mask)
  {
    var w := FormatWord(mask) ^ 0x5412;
    assert Residue(w, 1) == if (w >> 14) & 1 != 0 then w ^ 0x5370 else w;
    assert Residue(w, 3) == var r := Residue(w, 2); if (r >> 12) & 1 != 0 then r ^ 0x14DC else r;
    match mask {
      case 0 => case 1 => case 2 => case 3 => case 4 => case 5 => case 6 => case 7 =>
    }
  }

  // In how many of the first n bits a word differs from the word of a mask.
  function FormatErrors(word: seq<bool>, mask: nat, n: nat): nat
    requires n <= 15 == |word|
  {
    if n == 0 then 0
    else FormatErrors(word, mask, n - 1) + if word[n - 1] != FormatBit(mask, n - 1) then 1 else 0
  }

  function FormatBits(mask: nat): (word: seq<bool>)
    ensures |word| == 15
  {
    seq(15, i requires 0 <= i < 15 => FormatBit(mask, i))
  }

  // Bit i of the word of mask 0, and what each bit of the mask changes in it.
  predicate BaseBit(i: nat) { i in {2, 6, 7, 8, 9, 10, 12, 13, 14} }
  predicate Row0(i: nat) { i in {0, 1, 2, 4, 5, 8, 10} }
  predicate Row1(i: nat) { i in {1, 2, 3, 5, 6, 9, 11} }
  predicate Row2(i: nat) { i in {0, 1, 3, 5, 6, 7, 8, 12} }

  predicate Linear(i: nat, m0: bool, m1: bool, m2: bool) {
    ((m0 && Row0(i)) != (m1 && Row1(i))) != (m2 && Row2(i))
  }

  lemma FormatLow(mask: nat, i: nat)
    requires mask < 4 && i < 15
    ensures FormatBit(mask, i) == (BaseBit(i) != Linear(i, mask % 2 == 1, mask / 2 % 2 == 1, mask / 4 == 1))
  {
    match mask {
      case 0 => case 1 => case 2 => case 3 =>
    }
  }

  lemma FormatMid(mask: nat, i: nat)
    requires 4 <= mask < 6 && i < 15
    ensures FormatBit(mask, i) == (BaseBit(i) != Linear(i, mask % 2 == 1, mask / 2 % 2 == 1, mask / 4 == 1))
  {
    match mask {
      case 4 => case 5 =>
    }
  }

  lemma FormatHigh(mask: nat, i: nat)
    requires 6 <= mask < 8 && i < 15
    ensures FormatBit(mask, i) == (BaseBit(i) != Linear(i, mask % 2 == 1, mask / 2 % 2 == 1, mask / 4 == 1))
  {
    match mask {
      case 6 => case 7 =>
    }
  }

  // The words are linear in the three bits of the mask.
  lemma FormatIsLinear(mask: nat, i: nat)
    requires mask < 8 && i < 15
    ensures FormatBit(mask, i) == (BaseBit(i) != Linear(i, mask % 2 == 1, mask / 2 % 2 == 1, mask / 4 == 1))
  {
    hide FormatBit, BaseBit, Linear;
    if mask < 4 {
      FormatLow(mask, i);
    } else if mask < 6 {
      FormatMid(mask, i);
    } else {
      FormatHigh(mask, i);
    }
  }

  // The number of ones among the first n bits of a combination of the rows.
  function RowWeight(m0: bool, m1: bool, m2: bool, n: nat): nat {
    if n == 0 then 0 else RowWeight(m0, m1, m2, n - 1) + if Linear(n - 1, m0, m1, m2) then 1 else 0
  }

  lemma {:induction false} ErrorsAreWeight(a: nat, b: nat, n: nat)
    requires a < 8 && b < 8 && n <= 15
    ensures FormatErrors(FormatBits(a), b, n) ==
            RowWeight(a % 2 != b % 2, a / 2 % 2 != b / 2 % 2, a / 4 != b / 4, n)
  {
    hide FormatBit, BaseBit, Row0, Row1, Row2;
    if n > 0 {
      ErrorsAreWeight(a, b, n - 1);
      FormatIsLinear(a, n - 1);
      FormatIsLinear(b, n - 1);
    }
  }

  function One(i: nat, m0: bool, m1: bool, m2: bool): nat { if Linear(i, m0, m1, m2) then 1 else 0 }

  lemma ThreeMore(m0: bool, m1: bool, m2: bool, n: nat)
    ensures RowWeight(m0, m1, m2, n + 3) ==
            RowWeight(m0, m1, m2, n) + One(n, m0, m1, m2) + One(n + 1, m0, m1, m2) + One(n + 2, m0, m1, m2)
  {
    assert RowWeight(m0, m1, m2, n + 2) == RowWeight(m0, m1, m2, n + 1) + One(n + 1, m0, m1, m2);
    hide Linear;
  }

  // Every combination but the empty one has at least seven ones.
  lemma RowWeights(m0: bool, m1: bool, m2: bool)
    requires m0 || m1 || m2
    ensures RowWeight(m0, m1, m2, 15) >= 7
  {
    ThreeMore(m0, m1, m2, 0);
    ThreeMore(m0, m1, m2, 3);
    ThreeMore(m0, m1, m2, 6);
    ThreeMore(m0, m1, m2, 9);
    ThreeMore(m0, m1, m2, 12);
    assert RowWeight(m0, m1, m2, 0) == 0;
    hide RowWeight;
  }

  // The words of two masks differ in at least seven bits.
  lemma FormatsApart(a: nat, b: nat)
    requires a < 8 && b < 8 && a != b
    ensures FormatErrors(FormatBits(a), b, 15) >= 7
  {
    hide FormatErrors, FormatBits, RowWeight;
    ErrorsAreWeight(a, b, 15);
    RowWeights(a % 2 != b % 2, a / 2 % 2 != b / 2 % 2, a / 4 != b / 4);
  }

  lemma {:induction false} ErrorsTriangle(w: seq<bool>, a: nat, b: nat, n: nat)
    requires n <= 15 == |w|
    ensures FormatErrors(FormatBits(a), b, n) <= FormatErrors(w, a, n) + FormatErrors(w, b, n)
  {
    hide FormatBit;
    if n > 0 {
      ErrorsTriangle(w, a, b, n - 1);
    }
  }

  // Up to three wrong format bits leave the mask determined.
  lemma FormatCorrects(w: seq<bool>, a: nat, b: nat)
    requires a < 8 && b < 8 && |w| == 15
    requires FormatErrors(w, a, 15) <= 3 && FormatErrors(w, b, 15) <= 3
    ensures a == b
  {
    if a != b {
      FormatsApart(a, b);
      ErrorsTriangle(w, a, b, 15);
    }
  }

  method ComputeFormat(mask: nat) returns (bits: bv32)
    requires mask < 8
    ensures bits == FormatWord(mask)
  {
    hide BchStep;
    var data := (1 << 3) | MaskBits(mask);
    var rem := data;
    for i := 0 to 10
      invariant rem == Bch(data, i)
    {
      rem := BchStep(rem);
    }
    bits := ((data << 10) | rem) ^ 0x5412;
    FormatIsBch(mask);
    hide *;
  }

  // Bits lo to hi - 1 down column x, bit i in row y0 + i.
  method FormatDown(m: array<bv8>, size: nat, mask: nat, bits: bv32, x: int, y0: int, lo: nat, hi: nat)
    requires Fits(m, size) && lo <= hi <= 15 && bits == FormatWord(mask)
    modifies m
    ensures forall x', y' :: InGrid(size, x', y') ==>
              CellAt(m[..], size, x', y')
              == if x' == x && lo <= y' - y0 < hi then FuncCell(FormatBit(mask, y' - y0))
                 else CellAt(old(m[..]), size, x', y')
    ensures m[size * size..] == old(m[size * size..])
  {
    hide CellAt, FuncCell, FormatWord;
    for i := lo to hi
      invariant forall x', y' :: InGrid(size, x', y') ==>
                  CellAt(m[..], size, x', y')
                  == if x' == x && lo <= y' - y0 < i then FuncCell(FormatBit(mask, y' - y0))
                     else CellAt(old(m[..]), size, x', y')
      invariant m[size * size..] == old(m[size * size..])
    {
      SetCell(m, size, x, y0 + i, (bits >> i) & 1 != 0);
    }
  }

  // Bits lo to hi - 1 leftwards along row y, bit i in column x0 - i.
  method FormatLeft(m: array<bv8>, size: nat, mask: nat, bits: bv32, x0: int, y: int, lo: nat, hi: nat)
    requires Fits(m, size) && lo <= hi <= 15 && bits == FormatWord(mask)
    modifies m
    ensures forall x', y' :: InGrid(size, x', y') ==>
              CellAt(m[..], size, x', y')
              == if y' == y && lo <= x0 - x' < hi then FuncCell(FormatBit(mask, x0 - x'))
                 else CellAt(old(m[..]), size, x', y')
    ensures m[size * size..] == old(m[size * size..])
  {
    hide CellAt, FuncCell, FormatWord;
    for i := lo to hi
      invariant forall x', y' :: InGrid(size, x', y') ==>
                  CellAt(m[..], size, x', y')
                  == if y' == y && lo <= x0 - x' < i then FuncCell(FormatBit(mask, x0 - x'))
                     else CellAt(old(m[..]), size, x', y')
      invariant m[size * size..] == old(m[size * size..])
    {
      SetCell(m, size, x0 - i, y, (bits >> i) & 1 != 0);
    }
  }

  // The format bit a cell carries: 0 to 14, 15 for the always-dark module, -1
  // for any other cell. Both copies of the format information are here.
  function FormatIndex(size: nat, x: int, y: int): (i: int)
    ensures -1 <= i <= 15
  {
    if x == 8 && 0 <= y <= 5 then y
    else if x == 8 && y == 7 then 6
    else if x == 8 && y == 8 then 7
    else if x == 7 && y == 8 then 8
    else if y == 8 && 0 <= x <= 5 then 14 - x
    else if y == 8 && size - 8 <= x < size then size - 1 - x
    else if x == 8 && size - 7 <= y < size then y - (size - 15)
    else if x == 8 && y == size - 8 then 15
    else -1
  }

  predicate FormatDark(mask: nat, index: nat)
    requires index <= 15
  {
    if index < 15 then FormatBit(mask, index) else true
  }

  method DrawFormat(m: array<bv8>, size: nat, mask: nat)
    requires Fits(m, size) && size >= 21 && mask < 8
    modifies m
    ensures forall x, y :: InGrid(size, x, y) ==>
              CellAt(m[..], size, x, y)
              == if FormatIndex(size, x, y) >= 0 then FuncCell(FormatDark(mask, FormatIndex(size, x, y)))
                 else CellAt(old(m[..]), size, x, y)
    ensures m[size * size..] == old(m[size * size..])
  {
    hide CellAt, FuncCell, FormatWord;
    var bits := ComputeFormat(mask);
    FormatDown(m, size, mask, bits, 8, 0, 0, 6);
    SetCell(m, size, 8, 7, (bits >> 6) & 1 != 0);
    SetCell(m, size, 8, 8, (bits >> 7) & 1 != 0);
    SetCell(m, size, 7, 8, (bits >> 8) & 1 != 0);
    FormatLeft(m, size, mask, bits, 14, 8, 9, 15);
    FormatLeft(m, size, mask, bits, size - 1, 8, 0, 8);
    FormatDown(m, size, mask, bits, 8, size - 15, 8, 15);
    SetCell(m, size, 8, size - 8, true);
  }

  // ---- the whole picture ----

  predicate InFinder(size: nat, x: int, y: int) {
    (x <= 7 && y <= 7) || (x >= size - 8 && y <= 7) || (x <= 7 && y >= size - 8)
  }

  predicate InAlignment(version: nat, x: int, y: int) {
    version >= 2 && Distance(x, y, Size(version) - 7, Size(version) - 7) <= 2
  }

  predicate FinderDark(size: nat, x: int, y: int) {
    Distance(x, y, if x <= 7 then 3 else size - 4, if y <= 7 then 3 else size - 4) !in {2, 4}
  }

  // The modules that carry no data.
  predicate IsFunction(version: nat, x: int, y: int) {
    InFinder(Size(version), x, y) || InAlignment(version, x, y)
    || x == 6 || y == 6 || FormatIndex(Size(version), x, y) >= 0
  }

  // Whether a function module is dark.
  predicate FunctionDark(version: nat, mask: nat, x: int, y: int) {
    var size := Size(version);
    if InFinder(size, x, y) then FinderDark(size, x, y)
    else if InAlignment(version, x, y) then Distance(x, y, size - 7, size - 7) != 1
    else if x == 6 then y % 2 == 0
    else if y == 6 then x % 2 == 0
    else FormatIndex(size, x, y) >= 0 && FormatDark(mask, FormatIndex(size, x, y))
  }

  method DrawTiming(m: array<bv8>, size: nat)
    requires Fits(m, size) && size >= 21
    modifies m
    ensures forall x, y :: InGrid(size, x, y) ==>
              CellAt(m[..], size, x, y)
              == if x == 6 then FuncCell(y % 2 == 0) else if y == 6 then FuncCell(x % 2 == 0)
                 else CellAt(old(m[..]), size, x, y)
    ensures m[size * size..] == old(m[size * size..])
  {
    hide CellAt, FuncCell;
    for i := 0 to size
      invariant forall x, y :: InGrid(size, x, y) ==>
                  CellAt(m[..], size, x, y)
                  == if x == 6 && y < i then FuncCell(y % 2 == 0) else if y == 6 && x < i then FuncCell(x % 2 == 0)
                     else CellAt(old(m[..]), size, x, y)
      invariant m[size * size..] == old(m[size * size..])
    {
      SetCell(m, size, 6, i, i % 2 == 0);
      SetCell(m, size, i, 6, i % 2 == 0);
    }
  }

  method DrawFinders(m: array<bv8>, size: nat)
    requires Fits(m, size) && size >= 21
    modifies m
    ensures forall x, y :: InGrid(size, x, y) ==>
              CellAt(m[..], size, x, y)
              == if InFinder(size, x, y) then FuncCell(FinderDark(size, x, y)) else CellAt(old(m[..]), size, x, y)
    ensures m[size * size..] == old(m[size * size..])
  {
    hide CellAt, FuncCell;
    DrawSquare(m, size, 3, 3, 4, {2, 4});
    DrawSquare(m, size, size - 4, 3, 4, {2, 4});
    DrawSquare(m, size, 3, size - 4, 4, {2, 4});
  }

  method DrawAlignments(m: array<bv8>, size: nat)
    requires Fits(m, size) && size >= 21
    modifies m
    ensures forall x, y :: InGrid(size, x, y) ==>
              CellAt(m[..], size, x, y)
              == if Distance(x, y, size - 7, size - 7) <= 2 then FuncCell(Distance(x, y, size - 7, size - 7) !in {1})
                 else CellAt(old(m[..]), size, x, y)
    ensures m[size * size..] == old(m[size * size..])
  {
    hide CellAt, FuncCell, Distance;
    var centers := [6, size - 7];
    for i := 0 to 2
      invariant i < 2 ==> m[..] == old(m[..])
      invariant i == 2 ==> forall x, y :: InGrid(size, x, y) ==>
                  CellAt(m[..], size, x, y)
                  == if Distance(x, y, size - 7, size - 7) <= 2 then FuncCell(Distance(x, y, size - 7, size - 7) !in {1})
                     else CellAt(old(m[..]), size, x, y)
      invariant m[size * size..] == old(m[size * size..])
    {
      for j := 0 to 2
        invariant i == 0 || j < 2 ==> m[..] == old(m[..])
        invariant i == 1 && j == 2 ==> forall x, y :: InGrid(size, x, y) ==>
                    CellAt(m[..], size, x, y)
                    == if Distance(x, y, size - 7, size - 7) <= 2 then FuncCell(Distance(x, y, size - 7, size - 7) !in {1})
                       else CellAt(old(m[..]), size, x, y)
        invariant m[size * size..] == old(m[size * size..])
      {
        // Only the corner without a finder pattern has one.
        if !((i == 0 && j == 0) || (i == 0 && j == 1) || (i == 1 && j == 0)) {
          DrawSquare(m, size, centers[j], centers[i], 2, {1});
        }
      }
    }
  }

  method DrawFunctionPatterns(m: array<bv8>, size: nat, version: nat)
    requires 1 <= version <= 6 && size == Size(version) && Fits(m, size)
    modifies m
    ensures forall x, y :: InGrid(size, x, y) ==>
              CellAt(m[..], size, x, y)
              == if IsFunction(version, x, y) then FuncCell(FunctionDark(version, 0, x, y))
                 else CellAt(old(m[..]), size, x, y)
    ensures m[size * size..] == old(m[size * size..])
  {
    hide CellAt, FuncCell, FinderDark, FormatDark;
    DrawTiming(m, size);
    DrawFinders(m, size);
    if version >= 2 {
      DrawAlignments(m, size);
    }
    DrawFormat(m, size, 0);
  }
}
