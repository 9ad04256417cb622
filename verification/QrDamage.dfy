/**
 A damaged symbol: how far the format word and the Reed-Solomon blocks leave the
 text determined when modules have changed colour.
 */
module QrDamage {
  import opened Gf256
  import opened Options
  import opened QrBits
  import opened QrGrid
  import opened QrMask
  import opened QrPlacement
  import opened QrReader
  import opened QrSymbol
  import opened RsCode

  // ---- what is read from a matrix, damaged or not ----

  function FormatRead(w: seq<bv8>, size: nat): (word: seq<bool>)
    requires size >= 21 && size * size <= |w|
    ensures |word| == 15
  {
    seq(15, i requires 0 <= i < 15 => Dark(CellAt(w, size, FormatCell(i).x, FormatCell(i).y)))
  }

  function Codewords(w: seq<bv8>, version: nat, mask: nat): (cw: seq<bv8>)
    requires 1 <= version <= 6 && Size(version) * Size(version) <= |w|
    ensures |cw| == TotalCodewords(version)
  {
    DataCellCount(version);
    BytesOf(DataBits(w, version, mask))
  }

  function Block(cw: seq<bv8>, version: nat, b: nat): (s: seq<bv8>)
    requires 1 <= version <= 6 && |cw| == TotalCodewords(version) && b < Blocks(version)
    ensures |s| == PerBlock(version) + EccCodewords(version)
  {
    DataBlock(cw, version, b) + EccBlock(cw, version, b)
  }

  // In how many of the first n places two words differ.
  function Differences(a: seq<bool>, b: seq<bool>, n: nat): nat
    requires n <= |a| && n <= |b|
  {
    if n == 0 then 0 else Differences(a, b, n - 1) + if a[n - 1] != b[n - 1] then 1 else 0
  }

  // The matrix w is the symbol s with at most three wrong format bits, and in
  // each block at most half as many wrong codewords as the block has check bytes.
  ghost predicate Near(s: seq<bv8>, w: seq<bv8>, version: nat, mask: nat) {
    var size := Size(version);
    && 1 <= version <= 6 && size * size <= |s| && size * size <= |w|
    && Differences(FormatRead(s, size), FormatRead(w, size), 15) <= 3
    && forall b: nat :: b < Blocks(version) ==>
         2 * RsCode.Distance(Block(Codewords(s, version, mask), version, b), Block(Codewords(w, version, mask), version, b))
         <= EccCodewords(version)
  }

  // The matrix is near a symbol of the text.
  ghost predicate NearText(w: seq<bv8>, text: seq<bv8>, version: nat) {
    exists s, mask: nat :: mask < 8 && IsSymbol(s, text, version, mask) && Near(s, w, version, mask)
  }

  // A reader that corrects errors: some text whose symbol is near.
  ghost function Recover(w: seq<bv8>, version: nat): Option<seq<bv8>> {
    if exists text :: NearText(w, text, version) then
      var text :| NearText(w, text, version);
      Some(text)
    else None
  }

  // ---- the mask is determined ----

  lemma {:induction false} FormatErrorsAre(word: seq<bool>, mask: nat, n: nat)
    requires n <= 15 == |word|
    ensures FormatErrors(word, mask, n) == Differences(FormatBits(mask), word, n)
  {
    hide FormatBit;
    if n > 0 {
      FormatErrorsAre(word, mask, n - 1);
    }
  }

  lemma FormatOfSymbol(s: seq<bv8>, version: nat, mask: nat, cw: seq<bv8>)
    requires 1 <= version <= 6 && mask < 8 && IsMatrix(s, version, mask, cw)
    ensures Size(version) >= 21 && Size(version) * Size(version) <= |s|
    ensures FormatRead(s, Size(version)) == FormatBits(mask)
  {
    hide IsMatrix, CellAt, FormatBit;
    MatrixSize(s, version, mask, cw);
    MatrixFormat(s, version, mask, cw);
  }

  // ---- the codewords are determined ----

  lemma SameBlock(a: seq<bv8>, b: seq<bv8>, a': seq<bv8>, b': seq<bv8>)
    requires |a| == |a'| && a + b == a' + b'
    ensures a == a' && b == b'
  {
    assert a == (a + b)[..|a|] && a' == (a' + b')[..|a|];
    assert b == (a + b)[|a|..] && b' == (a' + b')[|a|..];
  }

  lemma BlockFits(version: nat)
    requires 1 <= version <= 6
    ensures PerBlock(version) + EccCodewords(version) <= 255 && EccCodewords(version) >= 7
  {}

  // Two messages that both come near the same codewords are one.
  lemma CodewordsDetermined(cw: seq<bv8>, cw': seq<bv8>, got: seq<bv8>, version: nat)
    requires 1 <= version <= 6 && |cw| == |cw'| == |got| == TotalCodewords(version)
    requires SyndromesZero(cw, version) && SyndromesZero(cw', version)
    requires forall b: nat :: b < Blocks(version) ==>
               2 * RsCode.Distance(Block(cw, version, b), Block(got, version, b)) <= EccCodewords(version)
               && 2 * RsCode.Distance(Block(cw', version, b), Block(got, version, b)) <= EccCodewords(version)
    ensures cw == cw'
  {
    hide DataBlock, EccBlock, IsCodeword, RsCode.Distance, EccCodewords, PerBlock, TotalCodewords, Blocks;
    BlockFits(version);
    forall b: nat | b < Blocks(version)
      ensures DataBlock(cw, version, b) == DataBlock(cw', version, b) && EccBlock(cw, version, b) == EccBlock(cw', version, b)
    {
      NearestCodeword(Block(cw, version, b), Block(got, version, b), Block(cw', version, b), EccCodewords(version));
      SameBlock(DataBlock(cw, version, b), EccBlock(cw, version, b), DataBlock(cw', version, b), EccBlock(cw', version, b));
    }
    forall k | 0 <= k < |cw| ensures cw[k] == cw'[k] {
      SlotCovers(cw, cw', version, k);
    }
  }

  // One matrix is not near symbols of two texts, nor of two masks.
  lemma TextDetermined(w: seq<bv8>, version: nat, s: seq<bv8>, text: seq<bv8>, mask: nat,
                       s': seq<bv8>, text': seq<bv8>, mask': nat)
    requires mask < 8 && IsSymbol(s, text, version, mask) && Near(s, w, version, mask)
    requires mask' < 8 && IsSymbol(s', text', version, mask') && Near(s', w, version, mask')
    ensures text == text' && mask == mask' && s == s'
  {
    hide IsMessage, IsMatrix, Codewords, FormatRead, FormatBits, FormatErrors, Differences, RsCode.Distance, SyndromesZero, ParseMessage,
         Block, DataOf, Size;
    var cw :| IsMessage(cw, text, version) && IsMatrix(s, version, mask, cw);
    var cw' :| IsMessage(cw', text', version) && IsMatrix(s', version, mask', cw');
    FormatOfSymbol(s, version, mask, cw);
    FormatOfSymbol(s', version, mask', cw');
    var word := FormatRead(w, Size(version));
    FormatErrorsAre(word, mask, 15);
    FormatErrorsAre(word, mask', 15);
    FormatCorrects(word, mask, mask');
    SymbolCodewords(s, text, version, mask, cw);
    SymbolCodewords(s', text', version, mask, cw');
    CodewordsDetermined(cw, cw', Codewords(w, version, mask), version);
    SymbolUnique(s, s', text, version, mask);
  }

  lemma SymbolCodewords(s: seq<bv8>, text: seq<bv8>, version: nat, mask: nat, cw: seq<bv8>)
    requires IsMessage(cw, text, version) && IsMatrix(s, version, mask, cw)
    ensures 1 <= version <= 6 && |cw| == TotalCodewords(version) && Size(version) * Size(version) <= |s|
    ensures Codewords(s, version, mask) == cw
    ensures SyndromesZero(cw, version) && ParseMessage(DataOf(cw, version)) == Some(text)
  {
    hide IsMessage, IsMatrix, SyndromesZero, ParseMessage, DataOf, DataBits, BytesOf, TotalCodewords, Size;
    MessageSize(cw, text, version);
    MatrixSize(s, version, mask, cw);
    MatrixBits(s, version, mask, cw);
    MessageReads(cw, text, version);
  }

  // A damaged symbol is still that of its text, as long as the damage is near.
  lemma DamagedReadBack(s: seq<bv8>, w: seq<bv8>, text: seq<bv8>, version: nat, mask: nat)
    requires mask < 8 && IsSymbol(s, text, version, mask) && Near(s, w, version, mask)
    ensures Recover(w, version) == Some(text)
  {
    hide IsSymbol, Near;
    assert NearText(w, text, version);
    forall other | NearText(w, other, version) ensures other == text {
      var s', mask': nat :| mask' < 8 && IsSymbol(s', other, version, mask') && Near(s', w, version, mask');
      TextDetermined(w, version, s, text, mask, s', other, mask');
    }
  }

  // ---- damage counted in modules ----

  // Outside d the two matrices have the same colours.
  ghost predicate SameOutside(s: seq<bv8>, w: seq<bv8>, size: nat, d: set<Cell>)
    requires size * size <= |s| && size * size <= |w|
  {
    forall x, y :: InGrid(size, x, y) && Cell(x, y) !in d ==> Dark(CellAt(s, size, x, y)) == Dark(CellAt(w, size, x, y))
  }

  function FormatCells(): set<Cell> { set i: nat | i < 15 :: FormatCell(i) }

  lemma {:induction false} FormatDamage(a: seq<bool>, b: seq<bool>, n: nat, d: set<Cell>)
    requires n <= 15 == |a| == |b|
    requires forall i: nat :: i < n && a[i] != b[i] ==> FormatCell(i) in d
    ensures Differences(a, b, n) <= |d|
  {
    if n > 0 {
      if a[n - 1] == b[n - 1] {
        FormatDamage(a, b, n - 1, d);
      } else {
        FormatDamage(a, b, n - 1, d - {FormatCell(n - 1)});
      }
    }
  }

  // The codeword that the module belongs to.
  ghost function CodewordOf(version: nat, c: Cell): nat {
    if c in DataCells(version) then
      var i :| 0 <= i < |DataCells(version)| && DataCells(version)[i] == c;
      i / 8
    else 0
  }

  lemma CodewordOfCell(version: nat, i: nat)
    requires i < |DataCells(version)|
    ensures CodewordOf(version, DataCells(version)[i]) == i / 8
  {
    hide DataCells;
    CellsDiffer(version);
  }

  lemma CellsDiffer(version: nat)
    ensures forall i, k :: 0 <= i < k < |DataCells(version)| ==> DataCells(version)[i] != DataCells(version)[k]
  {
    hide Order, FunctionMap;
    SizeIsOdd(version);
    OrderIsExact(FunctionMap(version), Size(version));
  }

  // A wrong codeword has a wrong module.
  lemma WrongModule(s: seq<bv8>, w: seq<bv8>, version: nat, mask: nat, d: set<Cell>, k: nat)
    requires 1 <= version <= 6 && Size(version) * Size(version) <= |s| && Size(version) * Size(version) <= |w|
    requires SameOutside(s, w, Size(version), d) && k < TotalCodewords(version)
    requires Codewords(s, version, mask)[k] != Codewords(w, version, mask)[k]
    ensures exists c :: c in d && CodewordOf(version, c) == k
  {
    hide DataCells, TotalCodewords, Size, CellAt, MaskBit, Pack, CodewordOf;
    DataCellCount(version);
    DataCellsInGrid(version);
    var a, b, cells := DataBits(s, version, mask), DataBits(w, version, mask), DataCells(version);
    if j :| 8 * k <= j < 8 * k + 8 && a[j] != b[j] {
      CodewordOfCell(version, j);
      assert cells[j] in d && j / 8 == k;
    } else {
      PackSame(a, b, 8 * k);
    }
  }

  lemma PackSame(a: seq<bool>, b: seq<bool>, k: nat)
    requires k + 8 <= |a| && k + 8 <= |b| && forall j :: k <= j < k + 8 ==> a[j] == b[j]
    ensures Pack(a, k) == Pack(b, k)
  {
    hide BitSet, Gather;
    forall i: nat | i < 8 ensures BitSet(Pack(a, k), i) == BitSet(Pack(b, k), i) {
      assert a[k + 7 - i] == b[k + 7 - i];
    }
    SameBitsSameByte(Pack(a, k), Pack(b, k));
  }

  // The wrong codewords are no more than the wrong modules.
  ghost function Owners(version: nat, d: set<Cell>): set<nat> { set c | c in d :: CodewordOf(version, c) }

  lemma {:induction false} FewOwners(version: nat, d: set<Cell>)
    ensures |Owners(version, d)| <= |d|
    decreases |d|
  {
    hide CodewordOf;
    if c :| c in d {
      FewOwners(version, d - {c});
      assert Owners(version, d) == Owners(version, d - {c}) + {CodewordOf(version, c)};
    }
  }

  // Where codeword i of block b is among all codewords.
  function Place(version: nat, b: nat, i: nat): nat
    requires 1 <= version <= 6
  {
    if i < PerBlock(version) then QrSymbol.Slot(Blocks(version), i, b)
    else DataCodewords(version) + QrSymbol.Slot(Blocks(version), i - PerBlock(version), b)
  }

  lemma PlaceDiffers(version: nat, b: nat, i: nat, j: nat)
    requires 1 <= version <= 6 && b < Blocks(version) && i < j < PerBlock(version) + EccCodewords(version)
    ensures Place(version, b, i) < Place(version, b, j) < TotalCodewords(version)
  {}

  lemma BlockAt(cw: seq<bv8>, version: nat, b: nat, i: nat)
    requires 1 <= version <= 6 && |cw| == TotalCodewords(version) && b < Blocks(version)
    requires i < PerBlock(version) + EccCodewords(version)
    ensures Place(version, b, i) < |cw| && Block(cw, version, b)[i] == cw[Place(version, b, i)]
  {}

  lemma {:induction false} DistanceAtMost(version: nat, b: nat, c: seq<bv8>, r: seq<bv8>, from: nat, e: set<nat>)
    requires 1 <= version <= 6 && b < Blocks(version) && |c| == |r|
    requires from + |c| == PerBlock(version) + EccCodewords(version)
    requires forall i: nat :: i < |c| && c[i] != r[i] ==> Place(version, b, from + i) in e
    ensures RsCode.Distance(c, r) <= |e|
    decreases |c|
  {
    hide Place, PerBlock, EccCodewords, Blocks;
    if |c| > 0 {
      var rest := if c[0] == r[0] then e else e - {Place(version, b, from)};
      forall i: nat | i < |c| - 1 && c[1..][i] != r[1..][i] ensures Place(version, b, from + 1 + i) in rest {
        assert c[1..][i] == c[1 + i] && r[1..][i] == r[1 + i] && from + (1 + i) == from + 1 + i;
        PlaceDiffers(version, b, from, from + 1 + i);
      }
      assert c[0] != r[0] ==> Place(version, b, from + 0) in e;
      DistanceAtMost(version, b, c[1..], r[1..], from + 1, rest);
    }
  }

  lemma BlockDamage(s: seq<bv8>, w: seq<bv8>, version: nat, mask: nat, d: set<Cell>, b: nat)
    requires 1 <= version <= 6 && Size(version) * Size(version) <= |s| && Size(version) * Size(version) <= |w|
    requires SameOutside(s, w, Size(version), d) && b < Blocks(version)
    ensures RsCode.Distance(Block(Codewords(s, version, mask), version, b), Block(Codewords(w, version, mask), version, b)) <= |d|
  {
    hide SameOutside, Codewords, Block, Place, CodewordOf, PerBlock, EccCodewords, TotalCodewords, Blocks, Size, RsCode.Distance;
    var a, g := Codewords(s, version, mask), Codewords(w, version, mask);
    var c, r, e := Block(a, version, b), Block(g, version, b), Owners(version, d);
    forall i: nat | i < |c| && c[i] != r[i] ensures Place(version, b, i) in e {
      BlockAt(a, version, b, i);
      BlockAt(g, version, b, i);
      WrongModule(s, w, version, mask, d, Place(version, b, i));
    }
    DistanceAtMost(version, b, c, r, 0, e);
    FewOwners(version, d);
  }

  // Wrong modules, wherever they are: as many as half of a block's check bytes
  // leave the text determined, if at most three are in the format word that is read.
  lemma WrongModules(s: seq<bv8>, w: seq<bv8>, text: seq<bv8>, version: nat, mask: nat, d: set<Cell>)
    requires mask < 8 && IsSymbol(s, text, version, mask) && 1 <= version <= 6
    requires Size(version) * Size(version) <= |s| && Size(version) * Size(version) <= |w|
    requires SameOutside(s, w, Size(version), d)
    requires 2 * |d| <= EccCodewords(version) && |d * FormatCells()| <= 3
    ensures Recover(w, version) == Some(text)
  {
    hide IsSymbol, Codewords, Block, RsCode.Distance, EccCodewords, Blocks, FormatCells, FormatRead, Differences, SameOutside, Recover;
    forall b: nat | b < Blocks(version)
      ensures 2 * RsCode.Distance(Block(Codewords(s, version, mask), version, b), Block(Codewords(w, version, mask), version, b))
              <= EccCodewords(version)
    {
      BlockDamage(s, w, version, mask, d, b);
    }
    WrongFormat(s, w, version, d);
    DamagedReadBack(s, w, text, version, mask);
  }

  lemma WrongFormat(s: seq<bv8>, w: seq<bv8>, version: nat, d: set<Cell>)
    requires 1 <= version <= 6 && Size(version) * Size(version) <= |s| && Size(version) * Size(version) <= |w|
    requires SameOutside(s, w, Size(version), d)
    ensures Size(version) >= 21
    ensures Differences(FormatRead(s, Size(version)), FormatRead(w, Size(version)), 15) <= |d * FormatCells()|
  {
    hide CellAt, FormatCell;
    var size := Size(version);
    var a, b := FormatRead(s, size), FormatRead(w, size);
    forall i: nat | i < 15 && a[i] != b[i] ensures FormatCell(i) in d * FormatCells() {
      FormatCellIndex(size, i);
    }
    FormatDamage(a, b, 15, d * FormatCells());
  }

  // Any three modules of any symbol may be wrong.
  lemma ThreeWrongModules(s: seq<bv8>, w: seq<bv8>, text: seq<bv8>, version: nat, mask: nat, d: set<Cell>)
    requires mask < 8 && IsSymbol(s, text, version, mask) && 1 <= version <= 6
    requires Size(version) * Size(version) <= |s| && Size(version) * Size(version) <= |w|
    requires SameOutside(s, w, Size(version), d) && |d| <= 3
    ensures Recover(w, version) == Some(text)
  {
    hide IsSymbol, SameOutside, Recover, FormatCells, EccCodewords;
    BlockFits(version);
    FewerIn(d, FormatCells());
    WrongModules(s, w, text, version, mask, d);
  }

  lemma {:induction false} FewerIn(d: set<Cell>, f: set<Cell>)
    ensures |d * f| <= |d|
    decreases |d|
  {
    if c :| c in d {
      FewerIn(d - {c}, f);
      assert d * f == if c in f then (d - {c}) * f + {c} else (d - {c}) * f;
    }
  }
}
