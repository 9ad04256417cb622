/**
 What a QR symbol for a text is (ISO/IEC 18004:2000, 8.4 to 8.9), said without
 the encoder: the codewords of the message, where the zigzag puts them, the mask
 over the data modules, and the function patterns.
 */
module QrSymbol {
  import opened ReedSolomon
  import opened QrBits
  import opened QrGrid
  import opened QrPlacement
  import opened QrMask

  // ---- the codeword sequence ----

  function PerBlock(version: nat): nat { DataCodewords(version) / Blocks(version) }

  // Interleaving: the i-th codewords of all blocks, then the next ones.
  function Slot(blocks: nat, i: nat, b: nat): nat { if blocks == 1 then i else 2 * i + b }

  function DataBlock(cw: seq<bv8>, version: nat, b: nat): (s: seq<bv8>)
    requires 1 <= version <= 6 && |cw| == TotalCodewords(version) && b < Blocks(version)
    ensures |s| == PerBlock(version)
  {
    seq(PerBlock(version), i requires 0 <= i < PerBlock(version) => cw[Slot(Blocks(version), i, b)])
  }

  function EccBlock(cw: seq<bv8>, version: nat, b: nat): (s: seq<bv8>)
    requires 1 <= version <= 6 && |cw| == TotalCodewords(version) && b < Blocks(version)
    ensures |s| == EccCodewords(version)
  {
    seq(EccCodewords(version),
        i requires 0 <= i < EccCodewords(version) => cw[DataCodewords(version) + Slot(Blocks(version), i, b)])
  }

  // The data codewords of all blocks, in order.
  function DataOf(cw: seq<bv8>, version: nat): (s: seq<bv8>)
    requires 1 <= version <= 6 && |cw| == TotalCodewords(version)
    ensures |s| == DataCodewords(version)
  {
    if Blocks(version) == 1 then DataBlock(cw, version, 0)
    else DataBlock(cw, version, 0) + DataBlock(cw, version, 1)
  }

  // The codewords of a message: its data codewords carry the text, and each
  // block ends in its Reed-Solomon remainder.
  ghost predicate IsMessage(cw: seq<bv8>, text: seq<bv8>, version: nat) {
    1 <= version <= 6 && |cw| == TotalCodewords(version) && |text| <= Capacity(version)
    && Carries(DataOf(cw, version), text)
    && forall b: nat :: b < Blocks(version) ==>
         EccBlock(cw, version, b) == Remainder(DataBlock(cw, version, b), Generator(EccCodewords(version))[1..])
  }

  lemma MessageSize(cw: seq<bv8>, text: seq<bv8>, version: nat)
    requires IsMessage(cw, text, version)
    ensures 1 <= version <= 6 && |cw| == TotalCodewords(version)
  {}

  // A text has one codeword sequence.
  lemma MessageUnique(cw: seq<bv8>, cw': seq<bv8>, text: seq<bv8>, version: nat)
    requires IsMessage(cw, text, version) && IsMessage(cw', text, version)
    ensures cw == cw'
  {
    hide Remainder, Generator, BitAt, MessageBit;
    var d, d', n := DataOf(cw, version), DataOf(cw', version), PerBlock(version);
    SameBits(d, d');
    forall b: nat | b < Blocks(version)
      ensures DataBlock(cw, version, b) == DataBlock(cw', version, b)
      ensures EccBlock(cw, version, b) == EccBlock(cw', version, b)
    {
      if b == 0 {
        assert DataBlock(cw, version, 0) == d[..n] && DataBlock(cw', version, 0) == d'[..n];
      } else {
        assert DataBlock(cw, version, 1) == d[n..] && DataBlock(cw', version, 1) == d'[n..];
      }
    }
    forall k | 0 <= k < |cw| ensures cw[k] == cw'[k] {
      SlotCovers(cw, cw', version, k);
    }
  }

  lemma SlotCovers(cw: seq<bv8>, cw': seq<bv8>, version: nat, k: nat)
    requires 1 <= version <= 6 && |cw| == |cw'| == TotalCodewords(version) && k < |cw|
    requires forall b: nat :: b < Blocks(version) ==> DataBlock(cw, version, b) == DataBlock(cw', version, b)
    requires forall b: nat :: b < Blocks(version) ==> EccBlock(cw, version, b) == EccBlock(cw', version, b)
    ensures cw[k] == cw'[k]
  {
    var n, blocks := DataCodewords(version), Blocks(version);
    var j := if k < n then k else k - n;
    var i, b := if blocks == 1 then j else j / 2, if blocks == 1 then 0 else j % 2;
    assert Slot(blocks, i, b) == j;
    if k < n {
      assert cw[k] == DataBlock(cw, version, b)[i] && cw'[k] == DataBlock(cw', version, b)[i];
    } else {
      assert cw[k] == EccBlock(cw, version, b)[i] && cw'[k] == EccBlock(cw', version, b)[i];
    }
  }

  lemma SameBits(s: seq<bv8>, s': seq<bv8>)
    requires |s| == |s'| && forall k: nat :: k < 8 * |s| ==> BitAt(s, k) == BitAt(s', k)
    ensures s == s'
  {
    hide BitAt;
    BytesOfBits(s, Bits(s));
    BytesOfBits(s', Bits(s));
  }

  // ---- the matrix ----

  // The function modules as a reader knows them from the version alone.
  function FunctionMap(version: nat): (g: seq<bv8>)
    ensures |g| == Size(version) * Size(version)
  {
    var size := Size(version);
    seq(size * size, k requires 0 <= k < size * size => if IsFunction(version, k % size, k / size) then CELL_FUNC else 0)
  }

  lemma IdxInverse(size: nat, x: int, y: int)
    requires InGrid(size, x, y)
    ensures Idx(size, x, y) % size == x && Idx(size, x, y) / size == y
  {
    var q, r := Idx(size, x, y) / size, Idx(size, x, y) % size;
    assert (q - y) * size == x - r;
    SmallMultiple(q - y, size);
  }

  lemma SmallMultiple(k: int, size: nat)
    requires 0 - size < k * size < size
    ensures k == 0
  {
    AtLeast(k, size);
  }

  lemma AtLeast(k: int, size: nat)
    ensures k >= 1 ==> k * size >= size
    ensures k <= -1 ==> k * size <= 0 - size
  {
    if k >= 1 {
      var less: nat := k - 1;
      assert less * size >= 0;
      assert k * size == less * size + size;
    } else if k <= -1 {
      var less: nat := -1 - k;
      assert less * size >= 0;
      assert k * size == 0 - less * size - size;
    }
  }

  lemma MapCell(version: nat, x: int, y: int)
    requires InGrid(Size(version), x, y)
    ensures CellAt(FunctionMap(version), Size(version), x, y) == if IsFunction(version, x, y) then CELL_FUNC else 0
  {
    hide IsFunction;
    IdxInRange(Size(version), x, y);
    IdxInverse(Size(version), x, y);
    hide Size;
  }

  lemma FunctionMapDrawn(version: nat)
    ensures Drawn(FunctionMap(version), version)
  {
    hide IsFunction, CellAt, FunctionMap;
    assert Func(CELL_FUNC) && !Func(0);
    forall x, y | InGrid(Size(version), x, y)
      ensures Func(CellAt(FunctionMap(version), Size(version), x, y)) == IsFunction(version, x, y)
    {
      MapCell(version, x, y);
    }
  }

  lemma SizeIsOdd(version: nat)
    ensures OddSize(Size(version))
  {
    Odd(8 + 2 * version, Size(version));
  }

  lemma Odd(k: nat, n: nat)
    requires n == k + k + 1
    ensures n % 2 == 1
  {
    assert n / 2 == k;
  }

  // The zigzag depends only on which modules are function modules.
  lemma OrderSame(g: seq<bv8>, g': seq<bv8>, version: nat, p: int, vert: int, j: int)
    requires Size(version) * Size(version) <= |g| && Size(version) * Size(version) <= |g'|
    requires Drawn(g, version) && Drawn(g', version) && Position(Size(version), p, vert, j)
    ensures OrderTo(g, Size(version), p, vert, j) == OrderTo(g', Size(version), p, vert, j)
  {
    hide CellAt, IsFunction, OrderTo, Func, Size;
    SizeIsOdd(version);
    forall c ensures Free(g, Size(version), c) == Free(g', Size(version), c) {}
    OrderSameFree(g, g', Size(version), p, vert, j);
  }

  // The data modules of a version in reading order.
  function DataCells(version: nat): seq<Cell> { Order(FunctionMap(version), Size(version)) }

  // The bit a reader finds in data module k: codeword bits, then remainder bits 0.
  predicate CodeBit(cw: seq<bv8>, k: nat) { k < 8 * |cw| && BitAt(cw, k) }

  ghost predicate IsMatrix(s: seq<bv8>, version: nat, mask: nat, cw: seq<bv8>) {
    var size, cells := Size(version), DataCells(version);
    |s| == size * size
    && (forall x, y :: InGrid(size, x, y) && IsFunction(version, x, y) ==>
          CellAt(s, size, x, y) == BitCell(FunctionDark(version, mask, x, y)))
    && (forall k :: 0 <= k < |cells| ==>
          InGrid(size, cells[k].x, cells[k].y)
          && CellAt(s, size, cells[k].x, cells[k].y) == BitCell(CodeBit(cw, k) != MaskBit(mask, cells[k].x, cells[k].y)))
  }

  // The symbol for a text in a version, with a mask.
  ghost predicate IsSymbol(s: seq<bv8>, text: seq<bv8>, version: nat, mask: nat) {
    exists cw :: IsMessage(cw, text, version) && IsMatrix(s, version, mask, cw)
  }

  // It is unique: encoding is deterministic once version and mask are.
  lemma SymbolUnique(s: seq<bv8>, s': seq<bv8>, text: seq<bv8>, version: nat, mask: nat)
    requires IsSymbol(s, text, version, mask) && IsSymbol(s', text, version, mask)
    ensures s == s'
  {
    hide IsFunction, CellAt, IsMessage, MaskBit, FunctionDark, DataCells;
    var cw :| IsMessage(cw, text, version) && IsMatrix(s, version, mask, cw);
    var cw' :| IsMessage(cw', text, version) && IsMatrix(s', version, mask, cw');
    MessageUnique(cw, cw', text, version);
    var size := Size(version);
    forall k | 0 <= k < |s| ensures s[k] == s'[k] {
      var x, y := IdxCovers(size, k);
      if !IsFunction(version, x, y) {
        var i := DataCellIndex(version, x, y);
      }
      IdxCell(s, size, x, y);
      IdxCell(s', size, x, y);
    }
  }

  lemma IdxCell(s: seq<bv8>, size: nat, x: int, y: int)
    requires InGrid(size, x, y) && size * size <= |s|
    ensures 0 <= Idx(size, x, y) < |s| && CellAt(s, size, x, y) == s[Idx(size, x, y)]
  {
    IdxInRange(size, x, y);
  }

  lemma TimingColumn(version: nat, x: int, y: int)
    requires InGrid(Size(version), x, y) && !IsFunction(version, x, y)
    ensures x != 6
  {}

  lemma FreeInOrder(version: nat, x: int, y: int)
    requires InGrid(Size(version), x, y) && !IsFunction(version, x, y)
    ensures Cell(x, y) in DataCells(version)
  {
    hide IsFunction, CellAt, FunctionMap, Order, Size, InGrid;
    TimingColumn(version, x, y);
    SizeIsOdd(version);
    FunctionMapDrawn(version);
    OrderIsExact(FunctionMap(version), Size(version));
    assert Free(FunctionMap(version), Size(version), Cell(x, y));
  }

  // Every data module has its place in the reading order.
  lemma DataCellIndex(version: nat, x: int, y: int) returns (i: nat)
    requires InGrid(Size(version), x, y) && !IsFunction(version, x, y)
    ensures i < |DataCells(version)| && DataCells(version)[i] == Cell(x, y)
  {
    hide IsFunction, DataCells, Size;
    FreeInOrder(version, x, y);
    i :| 0 <= i < |DataCells(version)| && DataCells(version)[i] == Cell(x, y);
  }
}
