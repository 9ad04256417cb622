/**
 The accepted files byte by byte: which they are, in terms of the documented
 layout, and what one changed byte does to them.
 */
module ArchiveDamage {
  import opened Bytes
  import opened ArchiveFormat
  import opened Crc32
  import opened Options

  // ---- the CRC ----

  // A step loses nothing: the bit shifted out shows in the top bit.
  lemma BitKeeps(a: bv32, b: bv32)
    ensures CrcBit(a) == CrcBit(b) ==> a == b
  {}

  lemma ByteKeeps(a: bv32, b: bv32, x: byte, y: byte)
    requires CrcByte(a, x) == CrcByte(b, y)
    ensures a ^ Wide(x) == b ^ Wide(y)
  {
    hide CrcBit;
    var p, q := a ^ Wide(x), b ^ Wide(y);
    var p1, q1 := CrcBit(p), CrcBit(q);
    var p2, q2 := CrcBit(p1), CrcBit(q1);
    var p3, q3 := CrcBit(p2), CrcBit(q2);
    var p4, q4 := CrcBit(p3), CrcBit(q3);
    var p5, q5 := CrcBit(p4), CrcBit(q4);
    var p6, q6 := CrcBit(p5), CrcBit(q5);
    var p7, q7 := CrcBit(p6), CrcBit(q6);
    BitKeeps(p7, q7);
    BitKeeps(p6, q6);
    BitKeeps(p5, q5);
    BitKeeps(p4, q4);
    BitKeeps(p3, q3);
    BitKeeps(p2, q2);
    BitKeeps(p1, q1);
    BitKeeps(p, q);
  }

  lemma XorRight(a: bv32, b: bv32, x: bv32)
    ensures a ^ x == b ^ x ==> a == b
    ensures x ^ a == x ^ b ==> a == b
  {}

  function Wide(x: byte): bv32 { Octet(x) as bv32 }

  function Value(o: bv8): int { o as int }

  lemma OctetValue(x: byte)
    ensures Value(Octet(x)) == x
  {
    OctetBack(x);
  }

  // The bits of a number as a byte and as an integer.
  lemma OctetBits(x: byte)
    ensures (x as bv8) & 0x80 == if x / 128 % 2 == 1 then 0x80 else 0
    ensures (x as bv8) & 0x40 == if x / 64 % 2 == 1 then 0x40 else 0
    ensures (x as bv8) & 0x20 == if x / 32 % 2 == 1 then 0x20 else 0
    ensures (x as bv8) & 0x10 == if x / 16 % 2 == 1 then 0x10 else 0
    ensures (x as bv8) & 0x08 == if x / 8 % 2 == 1 then 0x08 else 0
    ensures (x as bv8) & 0x04 == if x / 4 % 2 == 1 then 0x04 else 0
    ensures (x as bv8) & 0x02 == if x / 2 % 2 == 1 then 0x02 else 0
    ensures (x as bv8) & 0x01 == if x % 2 == 1 then 0x01 else 0
  {}

  lemma BitsAdd(b: bv8)
    ensures b as int == (if b & 0x80 != 0 then 128 else 0) + (if b & 0x40 != 0 then 64 else 0)
                      + (if b & 0x20 != 0 then 32 else 0) + (if b & 0x10 != 0 then 16 else 0)
                      + (if b & 0x08 != 0 then 8 else 0) + (if b & 0x04 != 0 then 4 else 0)
                      + (if b & 0x02 != 0 then 2 else 0) + (if b & 0x01 != 0 then 1 else 0)
  {}

  lemma NextHalf(x: nat, m: nat)
    requires m == 2 || m == 4 || m == 8 || m == 16 || m == 32 || m == 64
    ensures x / (2 * m) == x / m / 2
  {}

  lemma HalvesAdd(x: byte, a1: int, a2: int, a3: int, a4: int, a5: int, a6: int, a7: int)
    requires a1 == x / 2 && a2 == a1 / 2 && a3 == a2 / 2 && a4 == a3 / 2 && a5 == a4 / 2 && a6 == a5 / 2 && a7 == a6 / 2
    ensures x == a7 % 2 * 128 + a6 % 2 * 64 + a5 % 2 * 32 + a4 % 2 * 16 + a3 % 2 * 8 + a2 % 2 * 4 + a1 % 2 * 2 + x % 2
  {}

  lemma OctetSum(x: byte)
    ensures x == x / 128 % 2 * 128 + x / 64 % 2 * 64 + x / 32 % 2 * 32 + x / 16 % 2 * 16
                 + x / 8 % 2 * 8 + x / 4 % 2 * 4 + x / 2 % 2 * 2 + x % 2
  {
    NextHalf(x, 2);
    NextHalf(x, 4);
    NextHalf(x, 8);
    NextHalf(x, 16);
    NextHalf(x, 32);
    NextHalf(x, 64);
    HalvesAdd(x, x / 2, x / 4, x / 8, x / 16, x / 32, x / 64, x / 128);
  }

  lemma OctetBack(x: byte)
    ensures (x as bv8) as int == x
  {
    OctetBits(x);
    BitsAdd(x as bv8);
    OctetSum(x);
  }

  lemma WideApart(x: byte, y: byte)
    ensures Wide(x) == Wide(y) ==> x == y
  {
    OctetValue(x);
    OctetValue(y);
    SameOctet(Octet(x), Octet(y));
    hide Octet, Value;
  }

  lemma SameOctet(a: bv8, b: bv8)
    ensures a as bv32 == b as bv32 ==> a == b
  {}

  lemma SameByte(a: bv32, b: bv32, x: byte)
    ensures a != b ==> CrcByte(a, x) != CrcByte(b, x)
  {
    hide CrcByte, Wide;
    if CrcByte(a, x) == CrcByte(b, x) {
      ByteKeeps(a, b, x, x);
      XorRight(a, b, Wide(x));
    }
  }

  // From two different registers the same bytes lead to different registers.
  lemma {:induction false} RegistersApart(a: bv32, b: bv32, s: seq<byte>)
    requires a != b
    ensures Register(a, s) != Register(b, s)
  {
    hide CrcByte;
    if |s| > 0 {
      var n := |s| - 1;
      RegistersApart(a, b, s[..n]);
      SameByte(Register(a, s[..n]), Register(b, s[..n]), s[n]);
    }
  }

  // A changed byte changes the CRC.
  lemma CrcNotices(data: seq<byte>, o: nat, b: byte)
    requires o < |data| && b != data[o]
    ensures CrcValue(data[o := b]) != CrcValue(data)
  {
    hide CrcByte, Register;
    var p, s := data[..o], data[o + 1..];
    assert data == p + [data[o]] + s && data[o := b] == p + [b] + s;
    var start := Not(0);
    var c := Register(start, p);
    RegisterConcat(start, p, [data[o]]);
    RegisterConcat(start, p, [b]);
    RegisterConcat(start, p + [data[o]], s);
    RegisterConcat(start, p + [b], s);
    OneByte(c, data[o], b);
    RegistersApart(Register(c, [data[o]]), Register(c, [b]), s);
    NumbersApart(Crc(data), Crc(data[o := b]));
    NotApart(Register(start, data), Register(start, data[o := b]));
  }

  lemma OneByte(c: bv32, x: byte, y: byte)
    requires x != y
    ensures Register(c, [x]) != Register(c, [y])
  {
    hide CrcByte;
    assert [x][..0] == [] && [y][..0] == [];
    if CrcByte(c, x) == CrcByte(c, y) {
      ByteKeeps(c, c, x, y);
      XorRight(Wide(x), Wide(y), c);
      WideApart(x, y);
    }
  }

  lemma NotTwice(a: bv32)
    ensures Not(Not(a)) == a
  {}

  lemma NotApart(a: bv32, b: bv32)
    requires a != b
    ensures Not(a) != Not(b)
  {
    NotTwice(a);
    NotTwice(b);
    hide Not;
  }

  function Register32(n: nat): bv32
    requires n < U32
  {
    n as bv32
  }

  lemma NumberBack(a: bv32)
    ensures Register32(Number(a)) == a
  {}

  lemma NumbersApart(a: bv32, b: bv32)
    ensures a != b ==> Number(a) != Number(b)
  {
    NumberBack(a);
    NumberBack(b);
    hide Register32, Number;
  }

  // The digits 1 to 9 in ASCII, whose CRC every description of the algorithm gives.
  const DIGITS: seq<byte> := [0x31, 0x32, 0x33, 0x34, 0x35, 0x36, 0x37, 0x38, 0x39]

  lemma NextOctet(s: seq<byte>, n: nat, c: bv32, d: bv32)
    requires n < |s| && Register(0xFFFF_FFFF, s[..n]) == c && CrcByte(c, s[n]) == d
    ensures Register(0xFFFF_FFFF, s[..n + 1]) == d
  {
    hide CrcByte;
    assert s[..n + 1][..n] == s[..n];
  }

  lemma DigitSteps()
    ensures CrcByte(0xFFFF_FFFF, 0x31) == 0x7C23_1048 && CrcByte(0x7C23_1048, 0x32) == 0xB0AC_BB32 && CrcByte(0xB0AC_BB32, 0x33) == 0x77B7_9C2D
    ensures CrcByte(0x77B7_9C2D, 0x34) == 0x641C_1F5C && CrcByte(0x641C_1F5C, 0x35) == 0x340A_C5E3 && CrcByte(0x340A_C5E3, 0x36) == 0xF68D_2C9E
    ensures CrcByte(0xF68D_2C9E, 0x37) == 0xAFFC_9660 && CrcByte(0xAFFC_9660, 0x38) == 0x651F_2550 && CrcByte(0x651F_2550, 0x39) == 0x340B_C6D9
  {}

  lemma CheckValue()
    ensures CrcValue(DIGITS) == 0xCBF4_3926
  {
    hide CrcByte;
    DigitSteps();
    var s := DIGITS;
    assert s[..0] == [] && s[..9] == s;
    NextOctet(s, 0, 0xFFFF_FFFF, 0x7C23_1048);
    NextOctet(s, 1, 0x7C23_1048, 0xB0AC_BB32);
    NextOctet(s, 2, 0xB0AC_BB32, 0x77B7_9C2D);
    NextOctet(s, 3, 0x77B7_9C2D, 0x641C_1F5C);
    NextOctet(s, 4, 0x641C_1F5C, 0x340A_C5E3);
    NextOctet(s, 5, 0x340A_C5E3, 0xF68D_2C9E);
    NextOctet(s, 6, 0xF68D_2C9E, 0xAFFC_9660);
    NextOctet(s, 7, 0xAFFC_9660, 0x651F_2550);
    NextOctet(s, 8, 0x651F_2550, 0x340B_C6D9);
    CrcNumber();
  }

  lemma CrcNumber()
    ensures Not(0) == 0xFFFF_FFFF && Number(Not(0x340B_C6D9)) == 0xCBF4_3926
  {}

  // ---- fields ----

  lemma FieldChanged(s: seq<byte>, at: nat, o: nat, b: byte)
    requires at + 4 <= |s| && o < |s| && b != s[o]
    ensures Rd32(s[o := b], at) == Rd32(s, at) <==> !(at <= o < at + 4)
  {
    var t := s[o := b];
    assert forall i :: 0 <= i < |s| && i != o ==> t[i] == s[i];
  }

  // ---- a pack with one byte changed ----

  // Header bytes that no reader looks at.
  predicate Reserved(o: nat) { 5 <= o < 8 || 20 <= o < 32 }

  // A pack that the probe accepts is refused once any of its bytes is another,
  // but for the reserved ones, which change nothing.
  lemma OneByteChanged(f: seq<byte>, o: nat, b: byte)
    requires PackOk(f).Some? && o < |f| && b != f[o]
    ensures PackOk(f[o := b]) == if Reserved(o) then PackOk(f) else None
  {
    hide Rd32, ContentOk, IndexOk, CrcValue;
    var g := f[o := b];
    FieldChanged(f, 0, o, b);
    FieldChanged(f, 8, o, b);
    FieldChanged(f, 12, o, b);
    FieldChanged(f, 16, o, b);
    assert g[4] == f[4] <==> o != 4;
    if o < HEADER {
      assert g[HEADER..] == f[HEADER..];
      var cl := Rd32(f, 8);
      assert g[HEADER..HEADER + cl] == f[HEADER..HEADER + cl] && g[HEADER + cl..] == f[HEADER + cl..];
    } else {
      assert g[HEADER..] == f[HEADER..][o - HEADER := b];
      CrcNotices(f[HEADER..], o - HEADER, b);
    }
  }

  lemma LowByte(a: byte, n: nat, b: byte, m: nat)
    ensures a as int + 0x100 * n == b as int + 0x100 * m <==> a == b && n == m
  {}

  lemma FourBytes(a: byte, b: byte, c: byte, d: byte, w: byte, x: byte, y: byte, z: byte)
    ensures a as int + 0x100 * (b as int) + 0x1_0000 * (c as int) + 0x100_0000 * (d as int)
            == w as int + 0x100 * (x as int) + 0x1_0000 * (y as int) + 0x100_0000 * (z as int)
            <==> a == w && b == x && c == y && d == z
  {
    LowByte(c, d, y, z);
    LowByte(b, c as int + 0x100 * (d as int), x, y as int + 0x100 * (z as int));
    LowByte(a, b as int + 0x100 * (c as int + 0x100 * (d as int)), w, x as int + 0x100 * (y as int + 0x100 * (z as int)));
  }

  // ---- the layout, field by field ----

  // Numbers are stored with the low byte first.
  lemma LowByteFirst()
    ensures Rd32([0x04, 0x03, 0x02, 0x01], 0) == 0x0102_0304 && Rd16([0x02, 0x01], 0) == 0x0102
  {}

  // The content file: PWKC, version 3, a header of 32 bytes, then the payload,
  // whose last bytes are the dictionary.
  predicate SoundContent(c: seq<byte>) {
    && |c| >= 32 && c[..5] == ['P' as int, 'W' as int, 'K' as int, 'C' as int, 3] && Rd32(c, 8) == 32
    && 32 + Rd32(c, 12) <= |c| && Rd32(c, 20) <= 0x8000
    && if Rd32(c, 20) == 0 then Rd32(c, 16) == 0 else Rd32(c, 16) + Rd32(c, 20) == Rd32(c, 12)
  }

  lemma ContentSound(c: seq<byte>)
    ensures ContentOk(c).Some? <==> SoundContent(c)
    ensures ContentOk(c).Some? ==> ContentOk(c).value == ContentInfo(Rd32(c, 12), Rd32(c, 16), Rd32(c, 20))
  {
    if |c| >= 32 {
      MagicNumber(c, 'C');
    }
  }

  // A file starts with PWK and the letter exactly when it does so as a number.
  lemma MagicNumber(f: seq<byte>, letter: char)
    requires |f| >= 5 && letter as int < 0x100
    ensures Rd32(f, 0) == 0x4B5750 + 0x100_0000 * letter as int && f[4] == 3 <==>
              f[..5] == ['P' as int, 'W' as int, 'K' as int, letter as int, 3]
  {
    FourBytes(f[0], f[1], f[2], f[3], 0x50, 0x57, 0x4B, letter as int);
    assert f[..5] == [f[0], f[1], f[2], f[3], f[4]];
  }

  // Entry i of an index: 40 bytes with the id, the place and sizes of the
  // article, and the places of its normalized and its displayed title.
  predicate SoundEntry(x: seq<byte>, i: nat, payloadSize: nat, size: nat)
    requires 32 + 40 * (i + 1) <= |x|
  {
    var at := 32 + 40 * i;
    && Rd32(x, at) == i
    && 0 < Rd32(x, at + 8) && Rd32(x, at + 4) + Rd32(x, at + 8) <= payloadSize && 0 < Rd32(x, at + 12)
    && 0 < Rd16(x, at + 24) && Rd32(x, at + 20) + Rd16(x, at + 24) <= size
    && 0 < Rd16(x, at + 30) && Rd32(x, at + 26) + Rd16(x, at + 30) <= size
  }

  // The index: PWKI, version 3, entries of 40 bytes after a header of 32, then
  // the titles, and a CRC of all that follows the header.
  predicate SoundIndex(x: seq<byte>, payloadSize: nat) {
    && |x| >= 32 && x[..6] == ['P' as int, 'W' as int, 'K' as int, 'I' as int, 3, 40] && Rd32(x, 12) == 32
    && 32 + 40 * Rd32(x, 8) <= Rd32(x, 16) <= Rd32(x, 20) <= |x|
    && Rd32(x, 24) == CrcValue(x[32..Rd32(x, 20)])
    && forall i: nat :: i < Rd32(x, 8) ==> 32 + 40 * (i + 1) <= |x| && SoundEntry(x, i, payloadSize, Rd32(x, 20))
  }

  lemma EntrySound(x: seq<byte>, i: nat, payloadSize: nat, size: nat)
    requires 32 + 40 * (i + 1) <= |x|
    ensures EntryOk(x, size, payloadSize, i) <==> SoundEntry(x, i, payloadSize, size)
    ensures var e, at := EntryAt(x, i), 32 + 40 * i;
            && e.id == Rd32(x, at) && e.contentOff == Rd32(x, at + 4) && e.compLen == Rd32(x, at + 8)
            && e.uncompLen == Rd32(x, at + 12) && e.crc == Rd32(x, at + 16)
            && e.normOff == Rd32(x, at + 20) && e.normLen == Rd16(x, at + 24)
            && e.dispOff == Rd32(x, at + 26) && e.dispLen == Rd16(x, at + 30)
  {
    hide Rd32, Rd16;
  }

  lemma IndexSound(x: seq<byte>, payloadSize: nat)
    ensures IndexOk(x, payloadSize).Some? <==> SoundIndex(x, payloadSize)
    ensures IndexOk(x, payloadSize).Some? ==>
              IndexOk(x, payloadSize).value == IndexInfo(Rd32(x, 8), Rd32(x, 16), Rd32(x, 20))
  {
    if |x| >= 32 {
      MagicNumber(x, 'I');
      assert x[..6] == x[..5] + [x[5]];
      hide Rd32, CrcValue, EntryOk, SoundEntry;
      forall i: nat | 32 + 40 * (i + 1) <= |x|
        ensures EntryOk(x, Rd32(x, 20), payloadSize, i) <==> SoundEntry(x, i, payloadSize, Rd32(x, 20))
      {
        EntrySound(x, i, payloadSize, Rd32(x, 20));
      }
    }
  }

  // The pack: PWKP, version 3, the two lengths and the CRC of both files.
  predicate SoundPack(f: seq<byte>) {
    && 32 <= |f| < 0x8000_0000 && f[..5] == ['P' as int, 'W' as int, 'K' as int, 'P' as int, 3]
    && Rd32(f, 8) >= 32 && Rd32(f, 12) >= 32 && 32 + Rd32(f, 8) + Rd32(f, 12) == |f|
    && Rd32(f, 16) == CrcValue(f[32..])
    && SoundContent(f[32..32 + Rd32(f, 8)]) && SoundIndex(f[32 + Rd32(f, 8)..], Rd32(f[32..32 + Rd32(f, 8)], 12))
  }

  lemma PackSound(f: seq<byte>)
    ensures PackOk(f).Some? <==> SoundPack(f)
    ensures PackOk(f).Some? ==>
              var c := f[32..32 + Rd32(f, 8)];
              && PackOk(f).value.contentLen == Rd32(f, 8) && PackOk(f).value.indexLen == Rd32(f, 12)
              && PackOk(f).value.index.count == Rd32(f[32 + Rd32(f, 8)..], 8)
              && PackOk(f).value.content == ContentInfo(Rd32(c, 12), Rd32(c, 16), Rd32(c, 20))
  {
    hide Rd32, CrcValue, ContentOk, IndexOk, SoundContent, SoundIndex;
    if |f| >= 32 {
      MagicNumber(f, 'P');
      var cl := Rd32(f, 8);
      if 32 + cl + Rd32(f, 12) == |f| {
        ContentSound(f[32..32 + cl]);
        if cl >= 32 {
          IndexSound(f[32 + cl..], Rd32(f[32..32 + cl], 12));
        }
      }
    }
  }

  // Any changed byte behind the header of an accepted index is noticed.
  lemma IndexByteChanged(x: seq<byte>, payloadSize: nat, o: nat, b: byte)
    requires IndexOk(x, payloadSize).Some? && 32 <= o < IndexOk(x, payloadSize).value.size && b != x[o]
    ensures IndexOk(x[o := b], payloadSize).None?
  {
    hide Rd32, CrcValue, EntryOk;
    var y, size := x[o := b], Rd32(x, 20);
    FieldChanged(x, 0, o, b);
    FieldChanged(x, 8, o, b);
    FieldChanged(x, 12, o, b);
    FieldChanged(x, 16, o, b);
    FieldChanged(x, 20, o, b);
    FieldChanged(x, 24, o, b);
    assert y[HEADER..size] == x[HEADER..size][o - HEADER := b];
    CrcNotices(x[HEADER..size], o - HEADER, b);
  }
}
