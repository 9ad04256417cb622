/**
 Data encodation (ISO/IEC 18004:2000, 8.4): bytes as bits, the byte-mode segment
 the encoder packs, and the reader that parses it back.
 */
module QrBits {
  import opened Gf256
  import opened Options

  // ---- ECC level L, versions 1 to 6 ----

  function DataCodewords(version: nat): nat {
    if version == 1 then 19 else if version == 2 then 34 else if version == 3 then 55
    else if version == 4 then 80 else if version == 5 then 108 else 136
  }

  function EccCodewords(version: nat): nat {
    if version == 1 then 7 else if version == 2 then 10 else if version == 3 then 15
    else if version == 4 then 20 else if version == 5 then 26 else 18
  }

  function Blocks(version: nat): nat { if version == 6 then 2 else 1 }

  function Capacity(version: nat): nat {
    if version == 1 then 17 else if version == 2 then 32 else if version == 3 then 53
    else if version == 4 then 78 else if version == 5 then 106 else 134
  }

  // ---- bits of a byte sequence, most significant first ----

  function ShiftRight(n: nat, k: nat): nat {
    if k == 0 then n else ShiftRight(n, k - 1) / 2
  }

  predicate NatBit(n: nat, i: nat) { ShiftRight(n, i) % 2 == 1 }

  // The byte with n's low k bits.
  function LowByte(n: nat, k: nat): bv8
    requires k <= 8
  {
    if k == 0 then 0
    else if NatBit(n, k - 1) then LowByte(n, k - 1) | Basis(k - 1) else LowByte(n, k - 1)
  }

  function ByteOf(n: nat): bv8 { LowByte(n, 8) }

  // The number in bits k to 7.
  function HighValue(b: bv8, k: nat): nat
    requires k <= 8
    decreases 8 - k
  {
    if k == 8 then 0 else 2 * HighValue(b, k + 1) + if BitSet(b, k) then 1 else 0
  }

  function ValueOf(b: bv8): nat { HighValue(b, 0) }

  lemma {:induction false} LowByteBit(n: nat, k: nat, i: nat)
    requires k <= 8 && i < 8
    ensures BitSet(LowByte(n, k), i) == (i < k && NatBit(n, i))
  {
    if k == 0 {
      assert !BitSet(0, i);
    } else {
      LowByteBit(n, k - 1, i);
      SetOneBit(LowByte(n, k - 1), k - 1, i);
      hide BitSet, Basis, NatBit;
    }
  }

  lemma {:induction false} ShiftRightBound(n: nat, k: nat)
    requires n < 256 && k <= 8
    ensures ShiftRight(n, k) < [256, 128, 64, 32, 16, 8, 4, 2, 1][k]
  {
    if k > 0 {
      ShiftRightBound(n, k - 1);
    }
  }

  lemma {:induction false} HighValueOfByte(n: nat, k: nat)
    requires n < 256 && k <= 8
    ensures HighValue(ByteOf(n), k) == ShiftRight(n, k)
    decreases 8 - k
  {
    if k == 8 {
      ShiftRightBound(n, 8);
    } else {
      HighValueOfByte(n, k + 1);
      LowByteBit(n, 8, k);
      hide BitSet, LowByte;
    }
  }

  lemma ValueOfByte(n: nat)
    requires n < 256
    ensures ValueOf(ByteOf(n)) == n
  {
    HighValueOfByte(n, 0);
  }

  function BitAt(s: seq<bv8>, k: nat): bool
    requires k < 8 * |s|
  {
    BitSet(s[k / 8], 7 - k % 8)
  }

  lemma SetOneBit(b: bv8, i: nat, j: nat)
    requires i < 8 && j < 8
    ensures BitSet(b | Basis(i), j) == (BitSet(b, j) || i == j)
  {
    match j {
      case 0 => case 1 => case 2 => case 3 => case 4 => case 5 => case 6 => case 7 =>
    }
  }

  lemma SameBitsSameByte(a: bv8, b: bv8)
    requires forall i: nat :: i < 8 ==> BitSet(a, i) == BitSet(b, i)
    ensures a == b
  {
    assert BitSet(a, 0) == BitSet(b, 0) && BitSet(a, 1) == BitSet(b, 1);
    assert BitSet(a, 2) == BitSet(b, 2) && BitSet(a, 3) == BitSet(b, 3);
    assert BitSet(a, 4) == BitSet(b, 4) && BitSet(a, 5) == BitSet(b, 5);
    assert BitSet(a, 6) == BitSet(b, 6) && BitSet(a, 7) == BitSet(b, 7);
  }

  // ---- packing ----

  // Append the `count` low bits of value, most significant first.
  method PutBits(buf: array<bv8>, bitpos: nat, value: bv8, count: nat) returns (end: nat)
    requires count <= 8 && bitpos + count <= 8 * buf.Length
    modifies buf
    ensures end == bitpos + count
    ensures forall k: nat :: k < 8 * buf.Length ==>
              BitAt(buf[..], k) == (old(BitAt(buf[..], k)) || (bitpos <= k < end && BitSet(value, end - 1 - k)))
  {
    hide BitSet, Basis;
    end := bitpos;
    var i := count - 1;
    while i >= 0
      invariant -1 <= i < count
      invariant end == bitpos + count - 1 - i
      invariant forall k: nat :: k < 8 * buf.Length ==>
                  BitAt(buf[..], k) ==
                  (old(BitAt(buf[..], k)) || (bitpos <= k < end && BitSet(value, bitpos + count - 1 - k)))
    {
      ghost var before := buf[..];
      LowBit(value, i);
      if (value >> i) & 1 != 0 {
        var pos := end;
        buf[pos / 8] := buf[pos / 8] | Basis(7 - pos % 8);
        forall k: nat | k < 8 * buf.Length
          ensures BitAt(buf[..], k) == (BitAt(before, k) || k == pos)
        {
          if k / 8 == pos / 8 {
            SetOneBit(before[k / 8], 7 - pos % 8, 7 - k % 8);
          }
        }
      }
      end := end + 1;
      i := i - 1;
    }
  }

  // Bit k of the message: mode 0100, 8-bit count, the text, terminator, then
  // the pad codewords 11101100 and 00010001 in turn.
  function MessageBit(text: seq<bv8>, k: nat): bool
    requires |text| < 256
  {
    if k < 4 then k == 1
    else if k < 12 then NatBit(|text|, 11 - k)
    else if k < 12 + 8 * |text| then BitAt(text, k - 12)
    else if k < 16 + 8 * |text| then false
    else BitSet(if (k / 8 - |text|) % 2 == 0 then 0xEC else 0x11, 7 - k % 8)
  }

  lemma ZeroBits()
    ensures forall i: nat :: i < 8 ==> !BitSet(0, i)
    ensures forall i: nat :: i < 8 ==> BitSet(0x04, i) == (i == 2)
  {}

  // Mode indicator and character count, in a cleared buffer.
  method PutHeader(text: seq<bv8>, out: array<bv8>, dataCw: nat) returns (bits: nat)
    requires |text| < 256 && 2 <= dataCw <= out.Length
    modifies out
    ensures bits == 12
    ensures forall k: nat :: k < 12 ==> BitAt(out[..], k) == MessageBit(text, k)
    ensures forall k: nat :: 12 <= k < 8 * dataCw ==> !BitAt(out[..], k)
  {
    hide BitSet, NatBit, LowByte;
    for i := 0 to dataCw
      invariant forall k :: 0 <= k < i ==> out[k] == 0
    {
      out[i] := 0;
    }
    ZeroBits();
    bits := PutBits(out, 0, 0x04, 4);
    bits := PutBits(out, bits, ByteOf(|text|), 8);
    forall k: nat | 4 <= k < 12 ensures BitAt(out[..], k) == NatBit(|text|, 11 - k) {
      LowByteBit(|text|, 8, 11 - k);
    }
  }

  // Mode indicator, character count and payload.
  method PutMessage(text: seq<bv8>, out: array<bv8>, dataCw: nat) returns (bits: nat)
    requires |text| < 256 && |text| + 2 <= dataCw <= out.Length
    modifies out
    ensures bits == 12 + 8 * |text|
    ensures forall k: nat :: k < bits ==> BitAt(out[..], k) == MessageBit(text, k)
    ensures forall k: nat :: bits <= k < 8 * dataCw ==> !BitAt(out[..], k)
  {
    hide BitSet, MessageBit, BitAt;
    bits := PutHeader(text, out, dataCw);
    for i := 0 to |text|
      invariant bits == 12 + 8 * i
      invariant forall k: nat :: k < bits ==> BitAt(out[..], k) == MessageBit(text, k)
      invariant forall k: nat :: bits <= k < 8 * dataCw ==> !BitAt(out[..], k)
    {
      bits := PutBits(out, bits, text[i], 8);
      forall k: nat | 12 + 8 * i <= k < bits ensures MessageBit(text, k) == BitSet(text[i], bits - 1 - k) {
        PayloadBit(text, i, k);
      }
    }
  }

  lemma PayloadBit(text: seq<bv8>, i: nat, k: nat)
    requires i < |text| < 256 && 12 + 8 * i <= k < 20 + 8 * i
    ensures MessageBit(text, k) == BitSet(text[i], 19 + 8 * i - k)
  {
    hide BitSet;
    assert (k - 12) / 8 == i;
  }

  method PadToByte(start: nat, capacity: nat) returns (bits: nat)
    requires start <= capacity && capacity % 8 == 0
    ensures bits == (start + 7) / 8 * 8
  {
    bits := start;
    while bits < capacity && bits % 8 != 0
      invariant start <= bits <= (start + 7) / 8 * 8 <= capacity
    {
      bits := bits + 1;
    }
  }

  method BuildData(text: seq<bv8>, version: nat, out: array<bv8>)
    requires 1 <= version <= 6 && |text| <= Capacity(version) && DataCodewords(version) <= out.Length
    modifies out
    ensures forall k: nat :: k < 8 * DataCodewords(version) ==> BitAt(out[..], k) == MessageBit(text, k)
  {
    hide BitSet, NatBit;
    var dataCw := DataCodewords(version);
    var capacity := dataCw * 8;
    var bits := PutMessage(text, out, dataCw);
    if bits + 4 <= capacity {
      bits := bits + 4;
    }
    bits := PadToByte(bits, capacity);
    var flip := false;
    for i := bits / 8 to dataCw
      invariant flip == ((i - |text|) % 2 == 1)
      invariant forall k: nat :: k < 8 * i ==> BitAt(out[..], k) == MessageBit(text, k)
    {
      out[i] := if flip then 0x11 else 0xEC;
      flip := !flip;
    }
  }

  // ---- parsing ----

  function Bits(s: seq<bv8>): (b: seq<bool>)
    ensures |b| == 8 * |s|
  {
    seq(8 * |s|, k requires 0 <= k < 8 * |s| => BitAt(s, k))
  }

  // The byte made of the eight bits from k on.
  function Pack(bits: seq<bool>, k: nat): (b: bv8)
    requires k + 8 <= |bits|
    ensures forall i: nat :: i < 8 ==> BitSet(b, i) == bits[k + 7 - i]
  {
    GatherBits(bits, k, 8);
    Gather(bits, k, 8)
  }

  function Gather(bits: seq<bool>, k: nat, n: nat): bv8
    requires k + 8 <= |bits| && n <= 8
  {
    if n == 0 then 0
    else if bits[k + 8 - n] then Gather(bits, k, n - 1) | Basis(n - 1) else Gather(bits, k, n - 1)
  }

  lemma {:induction false} GatherBits(bits: seq<bool>, k: nat, n: nat)
    requires k + 8 <= |bits| && n <= 8
    ensures forall i: nat :: i < 8 ==> BitSet(Gather(bits, k, n), i) == (i < n && bits[k + 7 - i])
  {
    hide BitSet, Basis;
    if n == 0 {
      ZeroBits();
    } else {
      GatherBits(bits, k, n - 1);
      forall i: nat | i < 8 ensures BitSet(Gather(bits, k, n), i) == (i < n && bits[k + 7 - i]) {
        SetOneBit(Gather(bits, k, n - 1), n - 1, i);
      }
    }
  }

  lemma PackIs(bits: seq<bool>, k: nat, c: bv8)
    requires k + 8 <= |bits| && forall j: nat :: j < 8 ==> BitSet(c, j) == bits[k + 7 - j]
    ensures Pack(bits, k) == c
  {
    hide BitSet, Gather;
    SameBitsSameByte(Pack(bits, k), c);
  }

  function ByteAt(s: seq<bv8>, k: nat): (b: bv8)
    requires k + 8 <= 8 * |s|
    ensures forall i: nat :: i < 8 ==> BitSet(b, i) == BitAt(s, k + 7 - i)
  {
    Pack(Bits(s), k)
  }

  // Bits packed into bytes; what is left over at the end is dropped.
  function BytesOf(bits: seq<bool>): (s: seq<bv8>)
    ensures |s| == |bits| / 8
  {
    seq(|bits| / 8, i requires 0 <= i < |bits| / 8 => Pack(bits, 8 * i))
  }

  // Packing undoes unpacking.
  lemma BytesOfBits(s: seq<bv8>, bits: seq<bool>)
    requires |bits| / 8 == |s| && forall k: nat :: k < 8 * |s| ==> bits[k] == BitAt(s, k)
    ensures BytesOf(bits) == s
  {
    hide BitSet, Gather;
    forall i | 0 <= i < |s| ensures BytesOf(bits)[i] == s[i] {
      OneByte(s, bits, i);
    }
  }

  lemma OneByte(s: seq<bv8>, bits: seq<bool>, i: nat)
    requires |bits| / 8 == |s| && i < |s| && forall k: nat :: k < 8 * |s| ==> bits[k] == BitAt(s, k)
    ensures Pack(bits, 8 * i) == s[i]
  {
    hide BitSet, Gather;
    forall j: nat | j < 8 ensures BitSet(s[i], j) == bits[8 * i + 7 - j] {
      assert bits[8 * i + 7 - j] == BitAt(s, 8 * i + 7 - j);
    }
    PackIs(bits, 8 * i, s[i]);
  }

  // A reader's view of the data codewords: byte mode, a count that fits, the
  // text, and the terminator that ends the message.
  function ParseMessage(data: seq<bv8>): Option<seq<bv8>> {
    if |data| < 2 || BitAt(data, 0) || !BitAt(data, 1) || BitAt(data, 2) || BitAt(data, 3) then None
    else
      var len := ValueOf(ByteAt(data, 4));
      var end := 12 + 8 * len;
      if |data| < len + 2 then None
      else if BitAt(data, end) || BitAt(data, end + 1) || BitAt(data, end + 2) || BitAt(data, end + 3) then None
      else Some(seq(len, i requires 0 <= i < len => ByteAt(data, 12 + 8 * i)))
  }

  ghost predicate Carries(data: seq<bv8>, text: seq<bv8>) {
    forall k: nat :: k < 8 * |data| ==> BitAt(data, k) == (|text| < 256 && MessageBit(text, k))
  }

  lemma CountField(text: seq<bv8>, data: seq<bv8>)
    requires |text| < 256 && |data| >= 2 && Carries(data, text)
    ensures ValueOf(ByteAt(data, 4)) == |text|
  {
    hide BitSet, NatBit, LowByte, Pack, ValueOf;
    forall i: nat | i < 8 ensures BitSet(ByteAt(data, 4), i) == BitSet(ByteOf(|text|), i) {
      LowByteBit(|text|, 8, i);
    }
    SameBitsSameByte(ByteAt(data, 4), ByteOf(|text|));
    ValueOfByte(|text|);
  }

  lemma TextField(text: seq<bv8>, data: seq<bv8>, i: nat)
    requires i < |text| < 256 && |text| + 2 <= |data| && Carries(data, text)
    ensures ByteAt(data, 12 + 8 * i) == text[i]
  {
    hide BitSet, Pack;
    forall j: nat | j < 8 ensures BitSet(text[i], j) == Bits(data)[12 + 8 * i + 7 - j] {
      TextBit(text, data, i, 7 - j);
    }
    hide BitAt;
    PackIs(Bits(data), 12 + 8 * i, text[i]);
  }

  lemma TextBit(text: seq<bv8>, data: seq<bv8>, i: nat, j: nat)
    requires i < |text| < 256 && |text| + 2 <= |data| && Carries(data, text) && j < 8
    ensures BitAt(data, 12 + 8 * i + j) == BitSet(text[i], 7 - j)
  {
    hide BitSet, NatBit;
    var k := 12 + 8 * i + j;
    assert BitAt(data, k) == BitAt(text, k - 12);
  }

  // Whatever carries the message bits parses back to the text.
  lemma ParseBuilt(text: seq<bv8>, data: seq<bv8>)
    requires |text| < 256 && |text| + 2 <= |data| && Carries(data, text)
    ensures ParseMessage(data) == Some(text)
  {
    hide BitSet, NatBit, ByteAt, ValueOf, BitAt;
    CountField(text, data);
    assert !BitAt(data, 0) && BitAt(data, 1) && !BitAt(data, 2) && !BitAt(data, 3);
    assert forall k: nat :: 12 + 8 * |text| <= k < 16 + 8 * |text| ==> !BitAt(data, k);
    forall i | 0 <= i < |text| ensures ByteAt(data, 12 + 8 * i) == text[i] {
      TextField(text, data, i);
    }
    assert text == seq(|text|, i requires 0 <= i < |text| => ByteAt(data, 12 + 8 * i));
  }
}
