/** CRC-32 as zlib and the ESP32 ROM compute it, and why it can be streamed. */
module Crc32 {
  import opened Bytes

  function CrcBit(c: bv32): bv32 { (c >> 1) ^ (if c & 1 != 0 then 0xEDB8_8320 else 0) }

  function Octet(b: byte): bv8 { b as bv8 }

  function CrcByte(c: bv32, b: byte): bv32 {
    CrcBit(CrcBit(CrcBit(CrcBit(CrcBit(CrcBit(CrcBit(CrcBit(c ^ (Octet(b) as bv32)))))))))
  }

  function Register(c: bv32, data: seq<byte>): bv32 {
    if |data| == 0 then c else CrcByte(Register(c, data[..|data| - 1]), data[|data| - 1])
  }

  function Not(c: bv32): bv32 { !c }

  // esp_rom_crc32_le and zlib.crc32: extend the CRC of what came before.
  function Extend(crc: bv32, data: seq<byte>): bv32 { Not(Register(Not(crc), data)) }

  function Crc(data: seq<byte>): bv32 { Extend(0, data) }

  function Number(crc: bv32): (n: nat)
    ensures n < U32
  {
    crc as nat
  }

  // The CRC as the 32-bit number a header stores.
  function CrcValue(data: seq<byte>): (n: nat)
    ensures n < U32
  {
    Number(Crc(data))
  }

  lemma {:induction false} RegisterConcat(c: bv32, a: seq<byte>, b: seq<byte>)
    ensures Register(c, a + b) == Register(Register(c, a), b)
  {
    hide CrcByte;
    if |b| == 0 {
      assert a + b == a;
    } else {
      RegisterConcat(c, a, b[..|b| - 1]);
      assert (a + b)[..|a + b| - 1] == a + b[..|b| - 1];
    }
  }

  // Streaming in any chunks gives the CRC of the whole.
  lemma ExtendConcat(crc: bv32, a: seq<byte>, b: seq<byte>)
    ensures Extend(Extend(crc, a), b) == Extend(crc, a + b)
  {
    hide Not, CrcByte;
    RegisterConcat(Not(crc), a, b);
    NotNot(Register(Not(crc), a));
  }

  lemma NotNot(c: bv32) ensures Not(Not(c)) == c {}

  lemma ExtendNothing(crc: bv32)
    ensures Extend(crc, []) == crc
  {
    NotNot(crc);
  }
}
