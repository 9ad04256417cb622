/**
 The encoder: the source's qr_encode, ending in the symbol of its text with the
 best mask, which a reader turns back into the text.
 */
module QrEncode {
  import opened Options
  import opened ReedSolomon
  import opened QrBits
  import opened QrGrid
  import opened QrPlacement
  import opened QrMask
  import opened QrPenalty
  import opened QrSymbol
  import opened QrReader
  import opened QrPicture

  // The smallest version that holds n bytes, or 0 if none does.
  ghost predicate IsVersionFor(version: nat, n: nat) {
    if version == 0 then forall v :: 1 <= v <= 6 ==> n > Capacity(v)
    else version <= 6 && n <= Capacity(version) && forall v :: 1 <= v < version ==> n > Capacity(v)
  }

  method PickVersion(len: nat) returns (version: nat)
    ensures IsVersionFor(version, len)
  {
    for v := 1 to 7
      invariant forall w :: 1 <= w < v ==> len > Capacity(w)
    {
      if len <= Capacity(v) {
        return v;
      }
    }
    version := 0;
  }

  // The codewords of every block of src are in cw from start on, interleaved.
  ghost predicate Interleaved(cw: seq<bv8>, start: nat, src: seq<bv8>, count: nat, blocks: nat) {
    forall b, i :: 0 <= b < blocks && 0 <= i < count ==>
      0 <= start + Slot(blocks, i, b) < |cw| && 0 <= Offset(b, count) + i < |src|
      && cw[start + Slot(blocks, i, b)] == src[Offset(b, count) + i]
  }

  method Interleave(src: array<bv8>, count: nat, blocks: nat, cw: array<bv8>, start: nat) returns (n: nat)
    requires 1 <= blocks <= 2 && blocks * count <= src.Length && start + blocks * count <= cw.Length && src != cw
    modifies cw
    ensures n == start + blocks * count
    ensures Interleaved(cw[..n], start, src[..], count, blocks)
    ensures cw[..start] == old(cw[..start])
  {
    n := start;
    for i := 0 to count
      invariant n == start + blocks * i
      invariant forall k :: start <= k < n ==> cw[k] == src[Source(blocks, count, k - start)]
      invariant cw[..start] == old(cw[..start])
    {
      for b := 0 to blocks
        invariant n == start + blocks * i + b
        invariant forall k :: start <= k < n ==> cw[k] == src[Source(blocks, count, k - start)]
        invariant cw[..start] == old(cw[..start])
      {
        OffsetIsProduct(b, count);
        cw[n] := src[b * count + i];
        n := n + 1;
      }
    }
    SourceIsInterleaved(cw[..n], start, src[..], count, blocks);
  }

  function Offset(b: nat, count: nat): nat { if b == 0 then 0 else count }

  lemma OffsetIsProduct(b: nat, count: nat)
    requires b < 2
    ensures b * count == Offset(b, count)
  {}

  lemma SourceIsInterleaved(cw: seq<bv8>, start: nat, src: seq<bv8>, count: nat, blocks: nat)
    requires 1 <= blocks <= 2 && |cw| == start + (if blocks == 1 then count else 2 * count)
    requires (if blocks == 1 then count else 2 * count) <= |src|
    requires forall k :: start <= k < |cw| ==> cw[k] == src[Source(blocks, count, k - start)]
    ensures Interleaved(cw, start, src, count, blocks)
  {
    forall b, i | 0 <= b < blocks && 0 <= i < count
      ensures 0 <= start + Slot(blocks, i, b) < |cw| && 0 <= Offset(b, count) + i < |src|
      ensures cw[start + Slot(blocks, i, b)] == src[Offset(b, count) + i]
    {
      assert Source(blocks, count, Slot(blocks, i, b)) == Offset(b, count) + i;
    }
  }

  function Source(blocks: nat, count: nat, k: nat): nat
    requires blocks > 0
  {
    if blocks == 1 || k % 2 == 0 then k / blocks else count + k / 2
  }

  // The Reed-Solomon remainder of each block, one after the other.
  method MakeRemainders(data: array<bv8>, version: nat) returns (ecc: array<bv8>)
    requires 1 <= version <= 6 && data.Length == 136
    ensures fresh(ecc) && ecc.Length == 52
    ensures Remainders(data[..], ecc[..], version)
  {
    hide Remainder, Generator;
    var eccCw, blocks := EccCodewords(version), Blocks(version);
    var perBlock := DataCodewords(version) / blocks;
    var gen := new bv8[26];
    ecc := new bv8[52];
    RsGenerator(eccCw, gen);
    ghost var tail := Generator(eccCw)[1..];
    for b := 0 to blocks
      invariant gen[..eccCw] == tail
      invariant b >= 1 ==> ecc[..eccCw] == Remainder(data[..perBlock], tail)
      invariant b >= 2 ==> ecc[eccCw..2 * eccCw] == Remainder(data[perBlock..2 * perBlock], tail)
    {
      ghost var before := ecc[..];
      ghost var from, to := b * perBlock, b * eccCw;
      RsRemainder(data, b * perBlock, perBlock, gen, eccCw, ecc, b * eccCw);
      assert ecc[to..to + eccCw] == Remainder(data[from..from + perBlock], tail);
      if b == 0 {
        assert ecc[0..eccCw] == ecc[..eccCw] && data[0..perBlock] == data[..perBlock];
      } else {
        assert from == perBlock && to == eccCw;
        assert ecc[..eccCw] == before[..eccCw];
      }
    }
  }

  ghost predicate Remainders(data: seq<bv8>, ecc: seq<bv8>, version: nat) {
    1 <= version <= 6 && |data| == 136 && |ecc| == 52 &&
    var e, p, tail := EccCodewords(version), PerBlock(version), Generator(EccCodewords(version))[1..];
    ecc[..e] == Remainder(data[..p], tail)
    && (Blocks(version) == 2 ==> ecc[e..2 * e] == Remainder(data[p..2 * p], tail))
  }

  // The data codewords, their remainders, and both interleaved.
  method MakeCodewords(text: seq<bv8>, version: nat) returns (cw: array<bv8>, n: nat)
    requires 1 <= version <= 6 && |text| <= Capacity(version)
    ensures fresh(cw) && n == TotalCodewords(version) <= cw.Length
    ensures IsMessage(cw[..n], text, version)
  {
    hide BitAt, MessageBit, Remainder, Generator, Slot;
    var data := new bv8[136];
    BuildData(text, version, data);
    CarriesPrefix(data[..], text, version);
    var ecc := MakeRemainders(data, version);
    cw := new bv8[188];
    n := Interleave(data, PerBlock(version), Blocks(version), cw, 0);
    ghost var first := cw[..n];
    n := Interleave(ecc, EccCodewords(version), Blocks(version), cw, n);
    assert cw[..n][..|first|] == first;
    InterleavedIsMessage(cw[..n], first, data[..], ecc[..], text, version);
  }

  lemma InterleavedIsMessage(cw: seq<bv8>, first: seq<bv8>, data: seq<bv8>, ecc: seq<bv8>, text: seq<bv8>, version: nat)
    requires 1 <= version <= 6 && |text| <= Capacity(version) && Remainders(data, ecc, version)
    requires |cw| == TotalCodewords(version) && |first| == DataCodewords(version) && first <= cw
    requires Interleaved(first, 0, data, PerBlock(version), Blocks(version))
    requires Interleaved(cw, |first|, ecc, EccCodewords(version), Blocks(version))
    requires Carries(data[..DataCodewords(version)], text)
    ensures IsMessage(cw, text, version)
  {
    hide Remainder, Generator, Slot, Carries;
    var p, e := PerBlock(version), EccCodewords(version);
    forall b | 0 <= b < Blocks(version)
      ensures DataBlock(cw, version, b) == if b == 0 then data[..p] else data[p..2 * p]
      ensures EccBlock(cw, version, b) == if b == 0 then ecc[..e] else ecc[e..2 * e]
    {
      OneBlock(cw, first, data, ecc, version, b);
    }
    if Blocks(version) == 2 {
      assert data[..p] + data[p..2 * p] == data[..2 * p];
    }
  }

  lemma OneBlock(cw: seq<bv8>, first: seq<bv8>, data: seq<bv8>, ecc: seq<bv8>, version: nat, b: nat)
    requires 1 <= version <= 6 && b < Blocks(version) && |data| == 136 && |ecc| == 52
    requires |cw| == TotalCodewords(version) && |first| == DataCodewords(version) && first <= cw
    requires Interleaved(first, 0, data, PerBlock(version), Blocks(version))
    requires Interleaved(cw, |first|, ecc, EccCodewords(version), Blocks(version))
    ensures var p, e := PerBlock(version), EccCodewords(version);
            && DataBlock(cw, version, b) == (if b == 0 then data[..p] else data[p..2 * p])
            && EccBlock(cw, version, b) == (if b == 0 then ecc[..e] else ecc[e..2 * e])
  {
    hide Slot;
    var p, e, blocks := PerBlock(version), EccCodewords(version), Blocks(version);
    forall i | 0 <= i < p ensures DataBlock(cw, version, b)[i] == data[Offset(b, p) + i] {
      var t := Slot(blocks, i, b);
      assert cw[t] == first[0 + t];
    }
    forall i | 0 <= i < e ensures EccBlock(cw, version, b)[i] == ecc[Offset(b, e) + i] {
      assert cw[|first| + Slot(blocks, i, b)] == ecc[Offset(b, e) + i];
    }
  }

  lemma CarriesPrefix(data: seq<bv8>, text: seq<bv8>, version: nat)
    requires 1 <= version <= 6 && |text| <= Capacity(version) && DataCodewords(version) <= |data|
    requires forall k: nat :: k < 8 * DataCodewords(version) ==> BitAt(data, k) == MessageBit(text, k)
    ensures Carries(data[..DataCodewords(version)], text)
  {
    hide MessageBit;
    var d := data[..DataCodewords(version)];
    forall k: nat | k < 8 * |d| ensures BitAt(d, k) == (|text| < 256 && MessageBit(text, k)) {
      assert BitAt(d, k) == BitAt(data, k);
    }
  }

  // ---- from the drawn and placed buffer to the symbol ----

  // The buffer before masking: function modules, then the codeword bits in the
  // data modules and light remainder bits.
  ghost predicate Built(g: seq<bv8>, version: nat, cw: seq<bv8>) {
    var size, cells := Size(version), DataCells(version);
    1 <= version <= 6 && size * size <= |g|
    && (forall x, y :: InGrid(size, x, y) && IsFunction(version, x, y) ==>
          CellAt(g, size, x, y) == FuncCell(FunctionDark(version, 0, x, y)))
    && (forall k :: 0 <= k < |cells| ==>
          InGrid(size, cells[k].x, cells[k].y) && CellAt(g, size, cells[k].x, cells[k].y) == BitCell(CodeBit(cw, k)))
  }

  lemma FuncCellIsFunc(version: nat, mask: nat, x: int, y: int)
    ensures Func(FuncCell(FunctionDark(version, mask, x, y)))
  {
    FuncCellBits(FunctionDark(version, mask, x, y));
    hide FunctionDark, FuncCell, Func;
  }

  lemma OrderIsDataCells(g: seq<bv8>, version: nat)
    requires Size(version) * Size(version) <= |g| && Drawn(g, version)
    ensures Order(g, Size(version)) == DataCells(version)
    ensures forall i, k :: 0 <= i < k < |DataCells(version)| ==> DataCells(version)[i] != DataCells(version)[k]
  {
    hide CellAt, IsFunction, Size;
    SizeIsOdd(version);
    FunctionMapDrawn(version);
    OrderSame(g, FunctionMap(version), version, Pairs(Size(version)), 0, 0);
    OrderIsExact(g, Size(version));
    hide *;
  }

  // Placement changes no function module and leaves the remainder cells alone.
  lemma PlacedElsewhere(g: seq<bv8>, m: seq<bv8>, version: nat, cw: seq<bv8>, x: int, y: int, n: nat)
    requires Size(version) * Size(version) <= |g| == |m| && InGrid(Size(version), x, y)
    requires n <= |DataCells(version)| && n <= 8 * |cw| && Placed(m, g, Size(version), cw, DataCells(version), n)
    requires IsFunction(version, x, y) || exists k :: n <= k < |DataCells(version)| && DataCells(version)[k] == Cell(x, y)
    requires forall i, k :: 0 <= i < k < |DataCells(version)| ==> DataCells(version)[i] != DataCells(version)[k]
    ensures CellAt(m, Size(version), x, y) == CellAt(g, Size(version), x, y)
  {
    hide CellAt, IsFunction, BitAt, DataCells, BitCell, Free;
    var cells := DataCells(version);
    DataCellsInGrid(version);
    forall k | 0 <= k < n ensures cells[k] != Cell(x, y) {}
    assert Cell(x, y) !in cells[..n];
  }

  // Placement on the drawn, otherwise blank buffer builds it.
  lemma PlacedIsBuilt(g: seq<bv8>, m: seq<bv8>, version: nat, cw: seq<bv8>)
    requires 1 <= version <= 6 && Size(version) * Size(version) <= |g| == |m| && |cw| == TotalCodewords(version)
    requires forall x, y :: InGrid(Size(version), x, y) ==>
               CellAt(g, Size(version), x, y)
               == if IsFunction(version, x, y) then FuncCell(FunctionDark(version, 0, x, y)) else 0
    requires var order := Order(g, Size(version));
             Placed(m, g, Size(version), cw, order, Min(8 * |cw|, |order|))
    ensures Built(m, version, cw)
  {
    DrawnByPatterns(g, version);
    OrderIsDataCells(g, version);
    DataCellCount(version);
    DataCellsInGrid(version);
    assert BitCell(false) == 0;
    hide CellAt, IsFunction, FunctionDark, BitAt, Order, DataCells, BitCell, FuncCell, Free;
    var size, cells, n := Size(version), DataCells(version), 8 * |cw|;
    forall x, y | InGrid(size, x, y) && IsFunction(version, x, y)
      ensures CellAt(m, size, x, y) == FuncCell(FunctionDark(version, 0, x, y))
    {
      PlacedElsewhere(g, m, version, cw, x, y, n);
    }
    forall k | 0 <= k < |cells| ensures CellAt(m, size, cells[k].x, cells[k].y) == BitCell(CodeBit(cw, k)) {
      if n <= k {
        assert cells[k] == Cell(cells[k].x, cells[k].y);
        PlacedElsewhere(g, m, version, cw, cells[k].x, cells[k].y, n);
      }
    }
  }

  lemma DrawnByPatterns(g: seq<bv8>, version: nat)
    requires Size(version) * Size(version) <= |g|
    requires forall x, y :: InGrid(Size(version), x, y) ==>
               CellAt(g, Size(version), x, y)
               == if IsFunction(version, x, y) then FuncCell(FunctionDark(version, 0, x, y)) else 0
    ensures Drawn(g, version)
  {
    hide CellAt, IsFunction, FunctionDark, FuncCell;
    assert !Func(0);
    forall x, y | InGrid(Size(version), x, y)
      ensures Func(CellAt(g, Size(version), x, y)) == IsFunction(version, x, y)
    {
      FuncCellIsFunc(version, 0, x, y);
    }
  }

  lemma BuiltSameData(g: seq<bv8>, version: nat, cw: seq<bv8>)
    requires Built(g, version, cw)
    ensures SameData(g, g, Size(version))
  {
    hide CellAt, FunctionDark, FuncCell, DataCells, Func;
    forall x, y | InGrid(Size(version), x, y) && FormatIndex(Size(version), x, y) >= 0
      ensures Func(CellAt(g, Size(version), x, y))
    {
      FuncCellIsFunc(version, 0, x, y);
    }
  }

  // Outside the format modules, the function patterns do not depend on the mask.
  lemma PatternsIgnoreMask(version: nat, mask: nat, x: int, y: int)
    requires IsFunction(version, x, y) && FormatIndex(Size(version), x, y) < 0
    ensures FunctionDark(version, mask, x, y) == FunctionDark(version, 0, x, y)
  {
    hide FinderDark, FormatDark;
  }

  // A trial shows the matrix of its mask.
  lemma EmittedDark(m: seq<bv8>, g: seq<bv8>, version: nat, mask: nat, cw: seq<bv8>)
    requires mask < 8 && Built(g, version, cw) && Emitted(m, g, Size(version), mask)
    ensures var size, cells := Size(version), DataCells(version);
            (forall x, y :: InGrid(size, x, y) && IsFunction(version, x, y) ==>
              Dark(CellAt(m, size, x, y)) == FunctionDark(version, mask, x, y))
            && forall k :: 0 <= k < |cells| ==>
              Dark(CellAt(m, size, cells[k].x, cells[k].y)) == (CodeBit(cw, k) != MaskBit(mask, cells[k].x, cells[k].y))
  {
    hide CellAt, IsFunction, FunctionDark, FuncCell, DataCells, Func, Dark, FormatDark, MaskedCell, BitCell, CodeBit,
         MaskBit, FormatIndex;
    var size, cells := Size(version), DataCells(version);
    forall x, y | InGrid(size, x, y) && IsFunction(version, x, y)
      ensures Dark(CellAt(m, size, x, y)) == FunctionDark(version, mask, x, y)
    {
      if FormatIndex(size, x, y) >= 0 {
        FuncCellBits(FormatDark(mask, FormatIndex(size, x, y)));
        FormatIsSeparate(version, mask, x, y);
      } else {
        FuncCellBits(FunctionDark(version, 0, x, y));
        MaskedCases(CellAt(g, size, x, y), mask, x, y);
        PatternsIgnoreMask(version, mask, x, y);
      }
    }
    DataCellsInGrid(version);
    forall k | 0 <= k < |cells|
      ensures Dark(CellAt(m, size, cells[k].x, cells[k].y)) == (CodeBit(cw, k) != MaskBit(mask, cells[k].x, cells[k].y))
    {
      var c := cells[k];
      NoFormatInData(version, c.x, c.y);
      MaskedBit(CodeBit(cw, k), mask, c.x, c.y);
    }
  }

  lemma NoFormatInData(version: nat, x: int, y: int)
    requires !IsFunction(version, x, y)
    ensures FormatIndex(Size(version), x, y) < 0
  {}

  lemma MaskedBit(b: bool, mask: nat, x: nat, y: nat)
    ensures Dark(MaskedCell(BitCell(b), mask, x, y)) == (b != MaskBit(mask, x, y))
  {
    hide MaskBit;
  }

  // The returned matrix: the dark bit of every cell.
  ghost predicate Normalised(s: seq<bv8>, m: seq<bv8>, size: nat) {
    |s| == size * size <= |m| && forall k :: 0 <= k < |s| ==> s[k] == BitCell(Dark(m[k]))
  }

  lemma NormalisedCell(s: seq<bv8>, m: seq<bv8>, size: nat, x: int, y: int)
    requires Normalised(s, m, size) && InGrid(size, x, y)
    ensures CellAt(s, size, x, y) == BitCell(Dark(CellAt(m, size, x, y)))
  {
    IdxInRange(size, x, y);
  }

  lemma EmittedIsMatrix(s: seq<bv8>, m: seq<bv8>, g: seq<bv8>, version: nat, mask: nat, cw: seq<bv8>)
    requires mask < 8 && Built(g, version, cw) && Emitted(m, g, Size(version), mask) && Normalised(s, m, Size(version))
    ensures IsMatrix(s, version, mask, cw)
  {
    EmittedDark(m, g, version, mask, cw);
    hide CellAt, IsFunction, FunctionDark, DataCells, Dark, BitCell, CodeBit, MaskBit, Emitted, Normalised;
    var size := Size(version);
    forall x, y | InGrid(size, x, y) ensures CellAt(s, size, x, y) == BitCell(Dark(CellAt(m, size, x, y))) {
      NormalisedCell(s, m, size, x, y);
    }
    NormalisedSize(s, m, size);
  }

  lemma NormalisedSize(s: seq<bv8>, m: seq<bv8>, size: nat)
    requires Normalised(s, m, size)
    ensures |s| == size * size
  {}

  // ---- the least penalty ----

  // The penalty looks only at which modules are dark.
  lemma PenaltyDarkOnly(g: seq<bv8>, g': seq<bv8>, size: nat)
    requires size > 0 && size * size <= |g| && size * size <= |g'|
    requires forall x, y :: InGrid(size, x, y) ==> Dark(CellAt(g, size, x, y)) == Dark(CellAt(g', size, x, y))
    ensures Penalty(g, size) == Penalty(g', size)
  {
    hide LinesTo, BlocksTo, DarkTo, CellAt, Dark, BalanceSteps;
    AreaPositive(size);
    LinesDarkOnly(g, g', size, false, size);
    LinesDarkOnly(g, g', size, true, size);
    BlocksDarkOnly(g, g', size, 0, size - 1);
    DarkToDarkOnly(g, g', size, size * size);
  }

  lemma {:induction false} LinesDarkOnly(g: seq<bv8>, g': seq<bv8>, size: nat, vertical: bool, k: nat)
    requires size * size <= |g| && size * size <= |g'| && k <= size
    requires forall x, y :: InGrid(size, x, y) ==> Dark(CellAt(g, size, x, y)) == Dark(CellAt(g', size, x, y))
    ensures LinesTo(g, size, vertical, k) == LinesTo(g', size, vertical, k)
  {
    hide CellAt, Dark, LineScore;
    if k > 0 {
      LinesDarkOnly(g, g', size, vertical, k - 1);
      assert LineOf(g, size, k - 1, vertical) == LineOf(g', size, k - 1, vertical);
    }
  }

  lemma {:induction false} BlocksDarkOnly(g: seq<bv8>, g': seq<bv8>, size: nat, x: int, y: int)
    requires size * size <= |g| && size * size <= |g'|
    requires 0 <= y < size && 0 <= x < size && (y == size - 1 ==> x == 0)
    requires forall x, y :: InGrid(size, x, y) ==> Dark(CellAt(g, size, x, y)) == Dark(CellAt(g', size, x, y))
    ensures BlocksTo(g, size, x, y) == BlocksTo(g', size, x, y)
    decreases y, x
  {
    hide CellAt, Dark;
    if x > 0 {
      BlocksDarkOnly(g, g', size, x - 1, y);
    } else if y > 0 {
      BlocksDarkOnly(g, g', size, size - 1, y - 1);
    }
  }

  lemma {:induction false} DarkToDarkOnly(g: seq<bv8>, g': seq<bv8>, size: nat, n: nat)
    requires n <= size * size <= |g| && size * size <= |g'|
    requires forall x, y :: InGrid(size, x, y) ==> Dark(CellAt(g, size, x, y)) == Dark(CellAt(g', size, x, y))
    ensures DarkTo(g, n) == DarkTo(g', n)
  {
    hide Dark, CellAt;
    if n > 0 {
      DarkToDarkOnly(g, g', size, n - 1);
      var x, y := IdxCovers(size, n - 1);
      IdxCell(g, size, x, y);
      IdxCell(g', size, x, y);
    }
  }

  // Every mask has its trial.
  lemma TrialExists(g: seq<bv8>, size: nat, mask: nat) returns (m: seq<bv8>)
    requires size * size <= |g|
    ensures Emitted(m, g, size, mask)
  {
    hide EmittedCell;
    var n := size * size;
    m := seq(n, k requires 0 <= k < n =>
           (var x, y := k % size, k / size; if InGrid(size, x, y) then EmittedCell(g, size, mask, x, y) else 0)) + g[n..];
    forall x, y | InGrid(size, x, y) ensures CellAt(m, size, x, y) == EmittedCell(g, size, mask, x, y) {
      IdxInRange(size, x, y);
      IdxInverse(size, x, y);
    }
  }

  // A symbol scores what its mask's trial scored.
  lemma TrialScore(s: seq<bv8>, m: seq<bv8>, g: seq<bv8>, version: nat, mask: nat, cw: seq<bv8>)
    requires mask < 8 && Built(g, version, cw) && Emitted(m, g, Size(version), mask) && IsMatrix(s, version, mask, cw)
    ensures Size(version) * Size(version) <= |m| && |s| == Size(version) * Size(version)
    ensures Penalty(s, Size(version)) == Penalty(m, Size(version))
  {
    EmittedDark(m, g, version, mask, cw);
    hide CellAt, IsFunction, FunctionDark, DataCells, Dark, BitCell, CodeBit, MaskBit, Penalty, EmittedCell, FuncCell;
    var size, cells := Size(version), DataCells(version);
    forall x, y | InGrid(size, x, y) ensures Dark(CellAt(s, size, x, y)) == Dark(CellAt(m, size, x, y)) {
      if IsFunction(version, x, y) {
        BitCellDark(FunctionDark(version, mask, x, y));
      } else {
        var k := DataCellIndex(version, x, y);
        BitCellDark(CodeBit(cw, k) != MaskBit(mask, x, y));
      }
    }
    PenaltyDarkOnly(s, m, size);
  }

  // No symbol for the text scores less, and none of a lower mask as little.
  ghost predicate LeastPenalty(s: seq<bv8>, text: seq<bv8>, version: nat, mask: nat) {
    var size := Size(version);
    |s| == size * size &&
    forall other: nat, s' :: other < 8 && IsSymbol(s', text, version, other) ==>
      |s'| == size * size && Penalty(s, size) <= Penalty(s', size)
      && (other < mask ==> Penalty(s, size) < Penalty(s', size))
  }

  lemma BestIsLeast(g: seq<bv8>, s: seq<bv8>, text: seq<bv8>, version: nat, best: nat, cw: seq<bv8>)
    requires Built(g, version, cw) && IsMessage(cw, text, version)
    requires BestMask(g, Size(version), best) && IsMatrix(s, version, best, cw)
    ensures LeastPenalty(s, text, version, best)
  {
    hide Built, IsMessage, IsMatrix, Emitted, Penalty;
    var size := Size(version);
    BuiltSize(g, version, cw);
    var m := TrialExists(g, size, best);
    TrialScore(s, m, g, version, best, cw);
    forall other: nat, s' | other < 8 && IsSymbol(s', text, version, other)
      ensures |s'| == size * size && Penalty(s, size) <= Penalty(s', size)
      ensures other < best ==> Penalty(s, size) < Penalty(s', size)
    {
      var cw' :| IsMessage(cw', text, version) && IsMatrix(s', version, other, cw');
      MessageUnique(cw, cw', text, version);
      var m' := TrialExists(g, size, other);
      TrialScore(s', m', g, version, other, cw);
    }
  }

  lemma BuiltSize(g: seq<bv8>, version: nat, cw: seq<bv8>)
    requires Built(g, version, cw)
    ensures Size(version) * Size(version) <= |g| && 1 <= version <= 6
  {}

  // ---- qr_encode ----

  // The bytes of a C string, up to its NUL.
  function CString(s: seq<bv8>): seq<bv8>
    requires 0 in s
  {
    if s[0] == 0 then [] else [s[0]] + CString(s[1..])
  }

  lemma {:induction false} CStringIsPrefix(s: seq<bv8>, n: nat)
    requires n < |s| && s[n] == 0 && forall k :: 0 <= k < n ==> s[k] != 0
    ensures 0 in s && CString(s) == s[..n]
  {
    if n > 0 {
      CStringIsPrefix(s[1..], n - 1);
      assert s[..n] == [s[0]] + s[1..][..n - 1];
    }
  }

  method StrLen(text: array<bv8>) returns (n: nat)
    requires 0 in text[..]
    ensures n < text.Length && CString(text[..]) == text[..n]
  {
    n := 0;
    while text[n] != 0
      invariant n < text.Length && forall k :: 0 <= k < n ==> text[k] != 0
      decreases text.Length - n
    {
      assert exists k :: 0 <= k < text.Length && text[k] == 0;
      n := n + 1;
    }
    CStringIsPrefix(text[..], n);
  }

  // What a caller gets for a text that fits version `version`.
  ghost predicate Encoded(s: seq<bv8>, text: seq<bv8>, version: nat) {
    ReadSymbol(s, Size(version)) == Some(text)
    && exists mask: nat ::
         mask < 8 && IsSymbol(s, text, version, mask) && LeastPenalty(s, text, version, mask)
         && Pictured(s, Size(version), mask)
  }

  lemma SizeFits(version: nat)
    requires 1 <= version <= 6
    ensures 21 <= Size(version) <= 41 && Size(version) % 2 == 1 && Size(version) * Size(version) <= 41 * 41
  {
    assert Size(version) * Size(version) <= Size(version) * 41;
  }

  // Function patterns and codewords in a blank buffer.
  method BuildSymbol(text: seq<bv8>, version: nat, modules: array<bv8>) returns (ghost cw: seq<bv8>)
    requires 1 <= version <= 6 && |text| <= Capacity(version) && modules.Length >= 41 * 41
    modifies modules
    ensures Built(modules[..], version, cw) && IsMessage(cw, text, version)
  {
    hide CellAt, IsFunction, FunctionDark, FuncCell, IsMessage, Order, Placed, Built;
    var words, n := MakeCodewords(text, version);
    cw := words[..n];
    MessageSize(cw, text, version);
    var size := Size(version);
    SizeFits(version);
    for i := 0 to size * size
      invariant forall k :: 0 <= k < i ==> modules[k] == 0
      invariant words[..n] == cw
    {
      modules[i] := 0;
    }
    BlankCells(modules[..], size);
    DrawFunctionPatterns(modules, size, version);
    ghost var drawn := modules[..];
    PlaceCodewords(modules, size, words, n);
    PlacedIsBuilt(drawn, modules[..], version, cw);
  }

  lemma BlankCells(g: seq<bv8>, size: nat)
    requires size * size <= |g| && forall k :: 0 <= k < size * size ==> g[k] == 0
    ensures forall x, y :: InGrid(size, x, y) ==> CellAt(g, size, x, y) == 0
  {
    forall x, y | InGrid(size, x, y) ensures CellAt(g, size, x, y) == 0 {
      IdxInRange(size, x, y);
    }
  }

  // Choose the mask, apply it, draw its format, and reduce the cells to 0 and 1.
  method MaskSymbol(modules: array<bv8>, version: nat, ghost cw: seq<bv8>) returns (mask: nat)
    requires Built(modules[..], version, cw)
    modifies modules
    ensures Size(version) * Size(version) <= modules.Length && mask < 8
    ensures BestMask(old(modules[..]), Size(version), mask)
    ensures IsMatrix(modules[..Size(version) * Size(version)], version, mask, cw)
  {
    hide CellAt, FuncCell, MaskedCell, BestMask, FormatIndex, FormatDark, Built, IsMatrix, Dark, BitCell;
    ghost var g := modules[..];
    var size := Size(version);
    BuiltSize(g, version, cw);
    SizeFits(version);
    BuiltSameData(g, version, cw);
    mask := ChooseMask(modules, size);
    BestInRange(g, size, mask);
    ApplyMask(modules, size, mask);
    DrawFormat(modules, size, mask);
    ghost var m := modules[..];
    assert Emitted(m, g, size, mask);
    for i := 0 to size * size
      invariant forall k :: 0 <= k < i ==> modules[k] == BitCell(Dark(m[k]))
      invariant forall k :: i <= k < modules.Length ==> modules[k] == m[k]
    {
      DarkBit(modules[i]);
      modules[i] := modules[i] & CELL_DARK;
    }
    EmittedIsMatrix(modules[..size * size], m, g, version, mask, cw);
  }

  lemma DarkBit(c: bv8) ensures c & CELL_DARK == BitCell(Dark(c)) {}

  lemma BestInRange(g: seq<bv8>, size: nat, best: nat)
    requires BestMask(g, size, best)
    ensures best < 8
  {}

  method QrEncode(text: array?<bv8>, modules: array?<bv8>) returns (size: nat)
    requires text != null ==> 0 in text[..]
    requires modules != null ==> modules.Length >= 41 * 41 && modules != text
    modifies modules
    ensures text == null || modules == null ==> size == 0
    ensures text != null && modules != null ==>
              0 in text[..] && EncodeResult(CString(text[..]), size, old(modules[..]), modules[..])
  {
    if text == null || modules == null {
      return 0;
    }
    var len := StrLen(text);
    ghost var t := CString(text[..]);
    var version := PickVersion(len);
    if version == 0 {
      return 0;
    }
    hide ReadSymbol, LeastPenalty, IsSymbol, Built, IsMessage, IsMatrix, BestMask, Pictured, Encoded;
    size := Size(version);
    ghost var cw := BuildSymbol(text[..len], version, modules);
    ghost var g := modules[..];
    var mask := MaskSymbol(modules, version, cw);
    ghost var s := modules[..size * size];
    SymbolOf(s, t, version, mask, cw);
    BestIsLeast(g, s, t, version, mask, cw);
    SymbolEncoded(s, t, version, mask);
    assert text[..] == old(text[..]);
  }

  lemma SymbolEncoded(s: seq<bv8>, text: seq<bv8>, version: nat, mask: nat)
    requires 1 <= version <= 6 && mask < 8 && IsSymbol(s, text, version, mask) && LeastPenalty(s, text, version, mask)
    ensures Encoded(s, text, version)
  {
    hide ReadSymbol, LeastPenalty, IsSymbol, Pictured;
    ReadBack(s, text, version, mask);
    SymbolPictured(s, text, version, mask);
  }

  lemma SymbolOf(s: seq<bv8>, text: seq<bv8>, version: nat, mask: nat, cw: seq<bv8>)
    requires IsMessage(cw, text, version) && IsMatrix(s, version, mask, cw)
    ensures IsSymbol(s, text, version, mask)
  {}

  // Nothing for a text that no version holds; otherwise the symbol in the
  // smallest version that does.
  ghost predicate EncodeResult(text: seq<bv8>, size: nat, before: seq<bv8>, after: seq<bv8>) {
    exists version :: IsVersionFor(version, |text|) &&
      if version == 0 then size == 0 && after == before
      else size == Size(version) && size * size <= |after| && Encoded(after[..size * size], text, version)
  }
}
