/**
 The codewords of a message in numbers: the table of the versions, the bits of a
 byte, the data codewords byte by byte and their order in the symbol
 (ISO/IEC 18004:2000, 8.4 to 8.6 and table 13), and the field they are elements of.
 */
module QrCodewords {
  import opened Gf256
  import opened QrBits
  import opened QrGrid
  import opened QrPlacement
  import opened QrSymbol

  // ---- the versions ----

  // Of level L: modules on a side, blocks, and codewords and data codewords in each.
  datatype Entry = Entry(side: nat, blocks: nat, total: nat, data: nat)

  const VERSIONS: seq<Entry> := [
    Entry(21, 1, 26, 19), Entry(25, 1, 44, 34), Entry(29, 1, 70, 55),
    Entry(33, 1, 100, 80), Entry(37, 1, 134, 108), Entry(41, 2, 86, 68)
  ]

  lemma VersionTable(version: nat)
    requires 1 <= version <= 6
    ensures var e := VERSIONS[version - 1];
            && Size(version) == e.side && Blocks(version) == e.blocks && PerBlock(version) == e.data
            && EccCodewords(version) == e.total - e.data && TotalCodewords(version) == e.blocks * e.total
  {}

  // A version holds exactly the texts whose bits fit its data codewords: mode,
  // count, the bytes and the terminator.
  lemma CapacityIsExact(version: nat, n: nat)
    requires 1 <= version <= 6
    ensures n <= Capacity(version) <==> 4 + 8 + 8 * n + 4 <= 8 * VERSIONS[version - 1].blocks * VERSIONS[version - 1].data
  {}

  // ---- bits and bytes ----

  function One(bit: bool): nat { if bit then 1 else 0 }

  // The bits, from the most significant one on, are those of the number.
  predicate Spells(b: bv8, b7: bool, b6: bool, b5: bool, b4: bool, b3: bool, b2: bool, b1: bool, b0: bool) {
    b as int == 128 * One(b7) + 64 * One(b6) + 32 * One(b5) + 16 * One(b4) + 8 * One(b3) + 4 * One(b2) + 2 * One(b1) + One(b0)
  }

  // Bit 0 of a sequence is the most significant one of its first byte.
  lemma BitsSpell(s: seq<bv8>, i: nat)
    requires i < |s|
    ensures var k := 8 * i;
            Spells(s[i], BitAt(s, k), BitAt(s, k + 1), BitAt(s, k + 2), BitAt(s, k + 3), BitAt(s, k + 4), BitAt(s, k + 5),
                   BitAt(s, k + 6), BitAt(s, k + 7))
  {
    hide BitSet, Spells, BitAt;
    ByteSpelled(s[i]);
    BitPlace(s, i, 0);
    BitPlace(s, i, 1);
    BitPlace(s, i, 2);
    BitPlace(s, i, 3);
    BitPlace(s, i, 4);
    BitPlace(s, i, 5);
    BitPlace(s, i, 6);
    BitPlace(s, i, 7);
  }

  lemma BitPlace(s: seq<bv8>, i: nat, j: nat)
    requires i < |s| && j < 8
    ensures BitAt(s, 8 * i + j) == BitSet(s[i], 7 - j)
  {
    hide BitSet;
    assert (8 * i + j) / 8 == i && (8 * i + j) % 8 == j;
  }

  lemma ByteSpelled(b: bv8)
    ensures Spells(b, BitSet(b, 7), BitSet(b, 6), BitSet(b, 5), BitSet(b, 4), BitSet(b, 3), BitSet(b, 2), BitSet(b, 1), BitSet(b, 0))
  {}

  lemma ValueSpelled(b: bv8)
    ensures ValueOf(b) == b as int
  {
    hide HighValue, BitSet, One;
    ByteSpelled(b);
    TopOfByte(b);
    NextValue(b, 7);
    NextValue(b, 6);
    NextValue(b, 5);
    NextValue(b, 4);
    NextValue(b, 3);
    NextValue(b, 2);
    NextValue(b, 1);
    NextValue(b, 0);
  }

  lemma NextValue(b: bv8, k: nat)
    requires k < 8
    ensures HighValue(b, k) == 2 * HighValue(b, k + 1) + One(BitSet(b, k))
  {
    hide BitSet;
  }

  lemma TopOfByte(b: bv8)
    ensures HighValue(b, 8) == 0
  {}

  lemma CountByte(n: nat)
    requires n < 256
    ensures ByteOf(n) as int == n
  {
    ValueOfByte(n);
    ValueSpelled(ByteOf(n));
  }

  // A byte whose upper half is the lower half of a and whose lower half is the
  // upper half of b.
  predicate Straddles(d: bv8, a: bv8, b: bv8) {
    d as int == a as int % 16 * 16 + b as int / 16
  }

  predicate HalfBits(d: bv8, a: bv8, b: bv8, j: nat)
    requires j < 4
  {
    BitSet(d, 7 - j) == BitSet(a, 3 - j) && BitSet(d, 3 - j) == BitSet(b, 7 - j)
  }

  lemma HalvesJoin(d: bv8, a: bv8, b: bv8)
    requires HalfBits(d, a, b, 0) && HalfBits(d, a, b, 1) && HalfBits(d, a, b, 2) && HalfBits(d, a, b, 3)
    ensures d == (a << 4) | (b >> 4)
  {}

  lemma HalvesOf(d: bv8)
    ensures (d >> 4) as int == d as int / 16 && (d & 15) as int == d as int % 16
  {}

  lemma JoinHalves(d: bv8, a: bv8, b: bv8)
    requires d == (a << 4) | (b >> 4)
    ensures d >> 4 == a & 15 && d & 15 == b >> 4
  {}

  lemma JoinStraddles(d: bv8, a: bv8, b: bv8)
    requires d == (a << 4) | (b >> 4)
    ensures Straddles(d, a, b)
  {
    JoinHalves(d, a, b);
    HalvesOf(d);
    HalvesOf(a);
    HalvesOf(b);
  }

  // ---- the data codewords ----

  // The mode indicator, the count, the text and the terminator as bytes of their
  // own; in the codewords they are shifted by half a byte.
  function Unshifted(text: seq<bv8>): (s: seq<bv8>)
    requires |text| < 256
    ensures |s| == |text| + 3
  {
    [0x04, |text| as bv8] + text + [0x00]
  }

  // The data codewords are those bytes, and then the pad codewords in turn.
  lemma DataSpelled(data: seq<bv8>, text: seq<bv8>)
    requires |text| < 256 && |text| + 2 <= |data| && Carries(data, text)
    ensures forall i :: 0 <= i < |text| + 2 ==> Straddles(data[i], Unshifted(text)[i], Unshifted(text)[i + 1])
    ensures forall i :: |text| + 2 <= i < |data| ==> data[i] == if (i - |text|) % 2 == 0 then 236 else 17
  {
    hide Straddles, Unshifted, MessageBit;
    forall i | 0 <= i < |text| + 2 ensures Straddles(data[i], Unshifted(text)[i], Unshifted(text)[i + 1]) {
      MessageByte(data, text, i);
    }
    forall i | |text| + 2 <= i < |data| ensures data[i] == if (i - |text|) % 2 == 0 then 236 else 17 {
      PadByte(data, text, i);
    }
  }

  lemma CodewordBit(data: seq<bv8>, text: seq<bv8>, i: nat, j: nat)
    requires |text| < 256 && Carries(data, text) && i < |data| && j < 8
    ensures BitSet(data[i], 7 - j) == MessageBit(text, 8 * i + j)
  {
    hide BitSet, MessageBit, BitAt;
    BitPlace(data, i, j);
    assert BitAt(data, 8 * i + j) == MessageBit(text, 8 * i + j);
  }

  lemma PadByte(data: seq<bv8>, text: seq<bv8>, i: nat)
    requires |text| < 256 && Carries(data, text) && |text| + 2 <= i < |data|
    ensures data[i] == if (i - |text|) % 2 == 0 then 236 else 17
  {
    var pad: bv8 := if (i - |text|) % 2 == 0 then 236 else 17;
    forall k: nat | k < 8 ensures BitSet(data[i], k) == BitSet(pad, k) {
      CodewordBit(data, text, i, 7 - k);
      hide BitSet;
      assert (8 * i + 7 - k) / 8 == i;
    }
    SameBitsSameByte(data[i], pad);
  }

  // Bit j of the i-th unshifted byte is message bit 8 * i + j - 4.
  lemma UnshiftedBit(text: seq<bv8>, i: nat, j: nat)
    requires |text| < 256 && i < |text| + 3 && j < 8 && 4 <= 8 * i + j < 8 * |text| + 20
    ensures BitSet(Unshifted(text)[i], 7 - j) == MessageBit(text, 8 * i + j - 4)
  {
    hide BitSet, NatBit;
    var k := 8 * i + j - 4;
    ZeroBits();
    if i == 0 {
    } else if i == 1 {
      CountBits(|text|, 7 - j);
    } else if i < |text| + 2 {
      assert (k - 12) / 8 == i - 2 && (k - 12) % 8 == j;
    }
  }

  lemma CountBits(n: nat, i: nat)
    requires n < 256 && i < 8
    ensures BitSet(n as bv8, i) == NatBit(n, i)
  {
    hide BitSet, NatBit;
    CountByte(n);
    LowByteBit(n, 8, i);
    assert n as bv8 == ByteOf(n);
  }

  lemma MessageByte(data: seq<bv8>, text: seq<bv8>, i: nat)
    requires |text| < 256 && |text| + 2 <= |data| && Carries(data, text) && i < |text| + 2
    ensures Straddles(data[i], Unshifted(text)[i], Unshifted(text)[i + 1])
  {
    hide BitSet, MessageBit, Straddles, Carries;
    var a, b := Unshifted(text)[i], Unshifted(text)[i + 1];
    forall j: nat | j < 4 ensures HalfBits(data[i], a, b, j) {
      CodewordBit(data, text, i, j);
      CodewordBit(data, text, i, j + 4);
      UnshiftedBit(text, i, j + 4);
      UnshiftedBit(text, i + 1, j);
    }
    HalvesJoin(data[i], a, b);
    JoinStraddles(data[i], a, b);
  }

  // ---- their order in the symbol ----

  // Data codewords first. One block follows the order of the text; the two blocks
  // of version 6 alternate, in the data and in the check codewords.
  lemma OrderSpelled(cw: seq<bv8>, version: nat)
    requires 1 <= version <= 6 && |cw| == TotalCodewords(version)
    ensures version < 6 ==> cw == DataOf(cw, version) + EccBlock(cw, version, 0)
    ensures version == 6 ==>
              var data, ecc0, ecc1 := DataOf(cw, 6), EccBlock(cw, 6, 0), EccBlock(cw, 6, 1);
              && |data| == 136 && |ecc0| == |ecc1| == 18 && |cw| == 172
              && (forall k :: 0 <= k < 68 ==> cw[2 * k] == data[k] && cw[2 * k + 1] == data[68 + k])
              && (forall k :: 0 <= k < 18 ==> cw[136 + 2 * k] == ecc0[k] && cw[137 + 2 * k] == ecc1[k])
  {}

  // ---- the field ----

  // Doubling is a shift that is reduced by x^8 + x^4 + x^3 + x^2 + 1.
  lemma DoublingReduces(b: bv8)
    ensures Mul(b, 2) == Mul(2, b) == if b >= 0x80 then (b << 1) ^ 0x1D else b << 1
  {
    MulComm(b, 2);
    MulXTimeLeft(1, b);
    MulOne(b);
    hide Mul;
  }
}
