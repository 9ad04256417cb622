/**
 A reader that follows the standard: it finds the mask in the format modules,
 unmasks the data modules in zigzag order, de-interleaves the codewords, checks
 each block's syndromes, and parses the byte segment. Reading the symbol of a
 text returns the text.
 */
module QrReader {
  import opened Options
  import opened ReedSolomon
  import opened RsCode
  import opened QrBits
  import opened QrGrid
  import opened QrPlacement
  import opened QrMask
  import opened QrSymbol

  // Where the first copy of the format information has bit i.
  function FormatCell(i: nat): Cell
    requires i < 15
  {
    if i <= 5 then Cell(8, i) else if i == 6 then Cell(8, 7) else if i == 7 then Cell(8, 8)
    else if i == 8 then Cell(7, 8) else Cell(14 - i, 8)
  }

  predicate FormatMatches(s: seq<bv8>, size: nat, mask: nat)
    requires size >= 21 && size * size <= |s|
  {
    forall i: nat :: i < 15 ==> Dark(CellAt(s, size, FormatCell(i).x, FormatCell(i).y)) == FormatBit(mask, i)
  }

  // The first mask from `from` on whose format word is there.
  function FindMask(s: seq<bv8>, size: nat, from: nat): (m: Option<nat>)
    requires size >= 21 && size * size <= |s| && from <= 8
    ensures m.Some? ==> from <= m.value < 8
    decreases 8 - from
  {
    if from == 8 then None else if FormatMatches(s, size, from) then Some(from) else FindMask(s, size, from + 1)
  }

  // The unmasked data modules, as bits.
  function DataBits(s: seq<bv8>, version: nat, mask: nat): (bits: seq<bool>)
    requires Size(version) * Size(version) <= |s|
    ensures |bits| == |DataCells(version)|
  {
    DataCellsInGrid(version);
    seq(|DataCells(version)|, k requires 0 <= k < |DataCells(version)| =>
      var c := DataCells(version)[k];
      Dark(CellAt(s, Size(version), c.x, c.y)) != MaskBit(mask, c.x, c.y))
  }

  lemma DataCellsInGrid(version: nat)
    ensures forall k :: 0 <= k < |DataCells(version)| ==>
              InGrid(Size(version), DataCells(version)[k].x, DataCells(version)[k].y)
    ensures forall k :: 0 <= k < |DataCells(version)| ==>
              !IsFunction(version, DataCells(version)[k].x, DataCells(version)[k].y)
  {
    hide IsFunction, CellAt, FunctionMap;
    OrderIsExact(FunctionMap(version), Size(version));
    FunctionMapDrawn(version);
    forall k | 0 <= k < |DataCells(version)|
      ensures InGrid(Size(version), DataCells(version)[k].x, DataCells(version)[k].y)
      ensures !IsFunction(version, DataCells(version)[k].x, DataCells(version)[k].y)
    {
      assert DataCells(version)[k] in DataCells(version);
    }
  }

  ghost predicate SyndromesZero(cw: seq<bv8>, version: nat)
    requires 1 <= version <= 6 && |cw| == TotalCodewords(version)
  {
    forall b: nat :: b < Blocks(version) ==>
      IsCodeword(DataBlock(cw, version, b) + EccBlock(cw, version, b), EccCodewords(version))
  }

  ghost function ReadSymbol(s: seq<bv8>, size: nat): Option<seq<bv8>> {
    var version := (size - 17) / 4;
    if !(1 <= version <= 6 && size == Size(version) && size * size <= |s|) then None
    else
      var mask := FindMask(s, size, 0);
      if mask.None? then None
      else
        var cw := BytesOf(DataBits(s, version, mask.value));
        if |cw| != TotalCodewords(version) || !SyndromesZero(cw, version) then None
        else ParseMessage(DataOf(cw, version))
  }

  // ---- reading the format ----

  lemma FormatCellIndex(size: nat, i: nat)
    requires size >= 21 && i < 15
    ensures var c := FormatCell(i); InGrid(size, c.x, c.y) && FormatIndex(size, c.x, c.y) == i
  {}

  // Format modules lie outside every other function pattern.
  lemma FormatIsSeparate(version: nat, mask: nat, x: int, y: int)
    requires 1 <= version <= 6 && InGrid(Size(version), x, y) && FormatIndex(Size(version), x, y) >= 0
    ensures IsFunction(version, x, y)
    ensures FunctionDark(version, mask, x, y) == FormatDark(mask, FormatIndex(Size(version), x, y))
  {
    hide FinderDark, FormatDark;
  }

  // The three mask bits of the format word tell the masks apart.
  lemma FormatWordsDiffer(a: nat, b: nat)
    requires a < 8 && b < 8 && a != b
    ensures FormatBit(a, 10) != FormatBit(b, 10) || FormatBit(a, 11) != FormatBit(b, 11) || FormatBit(a, 12) != FormatBit(b, 12)
  {
    hide FormatBit;
    MaskInFormat(a);
    MaskInFormat(b);
  }

  lemma MaskInFormat(mask: nat)
    requires mask < 8
    ensures FormatBit(mask, 10) == (mask % 2 == 0) && FormatBit(mask, 11) == (mask / 2 % 2 == 1)
    ensures FormatBit(mask, 12) == (mask / 4 == 0)
  {
    match mask {
      case 0 => case 1 => case 2 => case 3 => case 4 => case 5 => case 6 => case 7 =>
    }
  }

  lemma BitCellDark(b: bool) ensures Dark(BitCell(b)) == b {}

  lemma MatrixFormat(s: seq<bv8>, version: nat, mask: nat, cw: seq<bv8>)
    requires 1 <= version <= 6 && mask < 8 && IsMatrix(s, version, mask, cw)
    ensures FormatMatches(s, Size(version), mask)
    ensures forall other: nat :: other < 8 && FormatMatches(s, Size(version), other) ==> other == mask
  {
    hide IsFunction, FunctionDark, CellAt, FormatBit, DataCells, BitCell, FormatIndex;
    var size := Size(version);
    forall i: nat | i < 15
      ensures Dark(CellAt(s, size, FormatCell(i).x, FormatCell(i).y)) == FormatBit(mask, i)
    {
      FormatCellIndex(size, i);
      FormatIsSeparate(version, mask, FormatCell(i).x, FormatCell(i).y);
      BitCellDark(FormatBit(mask, i));
    }
    forall other: nat | other < 8 && FormatMatches(s, size, other) ensures other == mask {
      if other != mask { FormatWordsDiffer(other, mask); }
    }
  }

  lemma {:induction false} FindMaskFinds(s: seq<bv8>, size: nat, mask: nat, from: nat)
    requires size >= 21 && size * size <= |s| && from <= mask < 8 && FormatMatches(s, size, mask)
    requires forall other: nat :: other < 8 && FormatMatches(s, size, other) ==> other == mask
    ensures FindMask(s, size, from) == Some(mask)
    decreases 8 - from
  {
    if from < mask {
      FindMaskFinds(s, size, mask, from + 1);
    }
  }

  // ---- reading the data ----

  lemma DataCellCount(version: nat)
    requires 1 <= version <= 6
    ensures |DataCells(version)| == 8 * TotalCodewords(version) + if version == 1 then 0 else 7
  {
    FunctionMapDrawn(version);
    RoomForCodewords(FunctionMap(version), version);
  }

  lemma MatrixBits(s: seq<bv8>, version: nat, mask: nat, cw: seq<bv8>)
    requires 1 <= version <= 6 && IsMatrix(s, version, mask, cw) && |cw| == TotalCodewords(version)
    ensures BytesOf(DataBits(s, version, mask)) == cw
  {
    DataCellCount(version);
    hide IsFunction, CellAt, DataCells, BitCell, MaskBit, BitAt, BytesOf;
    var bits, cells := DataBits(s, version, mask), DataCells(version);
    forall k: nat | k < 8 * |cw| ensures bits[k] == BitAt(cw, k) {
      BitCellDark(CodeBit(cw, k) != MaskBit(mask, cells[k].x, cells[k].y));
    }
    BytesOfBits(cw, bits);
  }

  lemma MessageReads(cw: seq<bv8>, text: seq<bv8>, version: nat)
    requires IsMessage(cw, text, version)
    ensures SyndromesZero(cw, version) && ParseMessage(DataOf(cw, version)) == Some(text)
  {
    hide Remainder, Generator, IsCodeword, ParseMessage, Carries, DataBlock, EccBlock;
    forall b: nat | b < Blocks(version)
      ensures IsCodeword(DataBlock(cw, version, b) + EccBlock(cw, version, b), EccCodewords(version))
    {
      RemainderMakesCodeword(DataBlock(cw, version, b), EccCodewords(version));
    }
    ParseBuilt(text, DataOf(cw, version));
  }

  // Reading the symbol of a text returns the text, whatever the version and mask.
  lemma ReadBack(s: seq<bv8>, text: seq<bv8>, version: nat, mask: nat)
    requires mask < 8 && IsSymbol(s, text, version, mask)
    ensures ReadSymbol(s, Size(version)) == Some(text)
  {
    hide IsMatrix, IsMessage, ReadSymbol;
    var cw :| IsMessage(cw, text, version) && IsMatrix(s, version, mask, cw);
    ReadBackFrom(s, text, version, mask, cw);
  }

  lemma ReadBackFrom(s: seq<bv8>, text: seq<bv8>, version: nat, mask: nat, cw: seq<bv8>)
    requires mask < 8 && IsMessage(cw, text, version) && IsMatrix(s, version, mask, cw)
    ensures ReadSymbol(s, Size(version)) == Some(text)
  {
    hide IsMatrix, FindMask, FormatMatches, DataBits, SyndromesZero, ParseMessage, IsMessage, BytesOf, DataOf, TotalCodewords, Size;
    SizeTellsVersion(version);
    MessageSize(cw, text, version);
    MatrixFormat(s, version, mask, cw);
    MatrixSize(s, version, mask, cw);
    FindMaskFinds(s, Size(version), mask, 0);
    MatrixBits(s, version, mask, cw);
    MessageReads(cw, text, version);
  }

  lemma SizeTellsVersion(version: nat)
    ensures (Size(version) - 17) / 4 == version && Size(version) >= 17
  {}

  lemma MatrixSize(s: seq<bv8>, version: nat, mask: nat, cw: seq<bv8>)
    requires IsMatrix(s, version, mask, cw)
    ensures |s| == Size(version) * Size(version)
  {}
}
