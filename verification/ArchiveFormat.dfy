/**
 The archive layout: content.bin, index.bin and the portable pack around them.
 This file has the byte layout both sides share, the acceptance conditions of
 the firmware's validators as functions of the bytes, and what an accepted
 archive guarantees to every later read.
 */
module ArchiveFormat {
  import opened Bytes
  import opened Crc32
  import opened Options

  const HEADER := 32
  const ENTRY := 40
  const VERSION: byte := 3
  const CONTENT_MAGIC := 0x434B5750
  const INDEX_MAGIC := 0x494B5750
  const PACK_MAGIC := 0x504B5750
  const MAX_DICT := 32768
  // The largest file position a 32-bit long can report.
  const FILE_MAX := 0x7FFF_FFFF

  // ---- little-endian fields ----

  function Le16(n: nat): (s: seq<byte>)
    requires n < 0x1_0000
    ensures |s| == 2 && Rd16(s, 0) == n
  {
    [n % 0x100, n / 0x100]
  }

  function Le32(n: nat): (s: seq<byte>)
    requires n < U32
    ensures |s| == 4 && Rd32(s, 0) == n
  {
    var q := n / 0x100;
    var r := q / 0x100;
    [n % 0x100, q % 0x100, r % 0x100, r / 0x100]
  }

  // Splitting the last field off an encoded record.
  lemma LastField(s: seq<byte>, at: nat, front: seq<byte>, field: seq<byte>)
    requires at + |front| + |field| <= |s| && s[at..at + |front| + |field|] == front + field
    ensures s[at..at + |front|] == front && s[at + |front|..at + |front| + |field|] == field
  {
    var r := s[at..at + |front| + |field|];
    assert r[..|front|] == front && r[|front|..] == field;
  }

  lemma Rd32Of(s: seq<byte>, at: nat, field: seq<byte>)
    requires |field| == 4 && at + 4 <= |s| && s[at..at + 4] == field
    ensures Rd32(s, at) == Rd32(field, 0)
  {
    assert s[at] == field[0] && s[at + 1] == field[1] && s[at + 2] == field[2] && s[at + 3] == field[3];
  }

  lemma Rd16Of(s: seq<byte>, at: nat, field: seq<byte>)
    requires |field| == 2 && at + 2 <= |s| && s[at..at + 2] == field
    ensures Rd16(s, at) == Rd16(field, 0)
  {
    assert s[at] == field[0] && s[at + 1] == field[1];
  }

  function Zeros(n: nat): (s: seq<byte>)
    ensures |s| == n
  {
    seq(n, _ => 0)
  }

  // ---- entries ----

  datatype Entry = Entry(id: nat, contentOff: nat, compLen: nat, uncompLen: nat, crc: nat,
                         normOff: nat, normLen: nat, dispOff: nat, dispLen: nat)

  predicate EntryFits(e: Entry) {
    e.id < U32 && e.contentOff < U32 && e.compLen < U32 && e.uncompLen < U32 && e.crc < U32
    && e.normOff < U32 && e.normLen < 0x1_0000 && e.dispOff < U32 && e.dispLen < 0x1_0000
  }

  function EncodeEntry(e: Entry): (s: seq<byte>)
    requires EntryFits(e)
    ensures |s| == ENTRY
  {
    Le32(e.id) + Le32(e.contentOff) + Le32(e.compLen) + Le32(e.uncompLen) + Le32(e.crc)
    + Le32(e.normOff) + Le16(e.normLen) + Le32(e.dispOff) + Le16(e.dispLen) + Zeros(8)
  }

  function DecodeEntry(s: seq<byte>, at: nat): (e: Entry)
    requires at + ENTRY <= |s|
    ensures EntryFits(e)
  {
    Entry(Rd32(s, at), Rd32(s, at + 4), Rd32(s, at + 8), Rd32(s, at + 12), Rd32(s, at + 16),
          Rd32(s, at + 20), Rd16(s, at + 24), Rd32(s, at + 26), Rd16(s, at + 30))
  }

  lemma EntryRoundTrip(e: Entry, s: seq<byte>, at: nat)
    requires EntryFits(e) && at + ENTRY <= |s| && s[at..at + ENTRY] == EncodeEntry(e)
    ensures DecodeEntry(s, at) == e
  {
    hide Le32, Le16, Zeros, Rd32, Rd16;
    var f1 := Le32(e.id);
    var f2 := f1 + Le32(e.contentOff);
    var f3 := f2 + Le32(e.compLen);
    var f4 := f3 + Le32(e.uncompLen);
    var f5 := f4 + Le32(e.crc);
    var f6 := f5 + Le32(e.normOff);
    var f7 := f6 + Le16(e.normLen);
    var f8 := f7 + Le32(e.dispOff);
    var f9 := f8 + Le16(e.dispLen);
    LastField(s, at, f9, Zeros(8));
    LastField(s, at, f8, Le16(e.dispLen));
    LastField(s, at, f7, Le32(e.dispOff));
    LastField(s, at, f6, Le16(e.normLen));
    LastField(s, at, f5, Le32(e.normOff));
    LastField(s, at, f4, Le32(e.crc));
    LastField(s, at, f3, Le32(e.uncompLen));
    LastField(s, at, f2, Le32(e.compLen));
    LastField(s, at, f1, Le32(e.contentOff));
    Rd32Of(s, at, Le32(e.id));
    Rd32Of(s, at + 4, Le32(e.contentOff));
    Rd32Of(s, at + 8, Le32(e.compLen));
    Rd32Of(s, at + 12, Le32(e.uncompLen));
    Rd32Of(s, at + 16, Le32(e.crc));
    Rd32Of(s, at + 20, Le32(e.normOff));
    Rd16Of(s, at + 24, Le16(e.normLen));
    Rd32Of(s, at + 26, Le32(e.dispOff));
    Rd16Of(s, at + 30, Le16(e.dispLen));
  }

  // ---- headers ----

  function ContentHeader(payload: nat, dictOff: nat, dictLen: nat): (s: seq<byte>)
    requires payload < U32 && dictOff < U32 && dictLen < U32
    ensures |s| == HEADER
  {
    Le32(CONTENT_MAGIC) + [VERSION] + Zeros(3) + Le32(HEADER) + Le32(payload) + Le32(dictOff) + Le32(dictLen) + Zeros(8)
  }

  lemma ContentHeaderFields(s: seq<byte>, payload: nat, dictOff: nat, dictLen: nat)
    requires payload < U32 && dictOff < U32 && dictLen < U32
    requires HEADER <= |s| && s[..HEADER] == ContentHeader(payload, dictOff, dictLen)
    ensures Rd32(s, 0) == CONTENT_MAGIC && s[4] == VERSION && Rd32(s, 8) == HEADER
    ensures Rd32(s, 12) == payload && Rd32(s, 16) == dictOff && Rd32(s, 20) == dictLen
  {
    hide Le32, Zeros, Rd32;
    var f1 := Le32(CONTENT_MAGIC);
    var f2 := f1 + [VERSION];
    var f3 := f2 + Zeros(3);
    var f4 := f3 + Le32(HEADER);
    var f5 := f4 + Le32(payload);
    var f6 := f5 + Le32(dictOff);
    var f7 := f6 + Le32(dictLen);
    assert s[0..32] == s[..32];
    LastField(s, 0, f7, Zeros(8));
    LastField(s, 0, f6, Le32(dictLen));
    LastField(s, 0, f5, Le32(dictOff));
    LastField(s, 0, f4, Le32(payload));
    LastField(s, 0, f3, Le32(HEADER));
    LastField(s, 0, f2, Zeros(3));
    LastField(s, 0, f1, [VERSION]);
    assert s[4..5][0] == s[4];
    Rd32Of(s, 0, Le32(CONTENT_MAGIC));
    Rd32Of(s, 8, Le32(HEADER));
    Rd32Of(s, 12, Le32(payload));
    Rd32Of(s, 16, Le32(dictOff));
    Rd32Of(s, 20, Le32(dictLen));
  }

  function IndexHeader(count: nat, stringsOff: nat, indexSize: nat, crc: nat): (s: seq<byte>)
    requires count < U32 && stringsOff < U32 && indexSize < U32 && crc < U32
    ensures |s| == HEADER
  {
    Le32(INDEX_MAGIC) + [VERSION, ENTRY] + Le16(0) + Le32(count) + Le32(HEADER) + Le32(stringsOff)
    + Le32(indexSize) + Le32(crc) + Le32(0)
  }

  lemma IndexHeaderFields(s: seq<byte>, count: nat, stringsOff: nat, indexSize: nat, crc: nat)
    requires count < U32 && stringsOff < U32 && indexSize < U32 && crc < U32
    requires HEADER <= |s| && s[..HEADER] == IndexHeader(count, stringsOff, indexSize, crc)
    ensures Rd32(s, 0) == INDEX_MAGIC && s[4] == VERSION && s[5] == ENTRY
    ensures Rd32(s, 8) == count && Rd32(s, 12) == HEADER && Rd32(s, 16) == stringsOff
    ensures Rd32(s, 20) == indexSize && Rd32(s, 24) == crc
  {
    hide Le32, Le16, Rd32;
    var f1 := Le32(INDEX_MAGIC);
    var f2 := f1 + [VERSION, ENTRY];
    var f3 := f2 + Le16(0);
    var f4 := f3 + Le32(count);
    var f5 := f4 + Le32(HEADER);
    var f6 := f5 + Le32(stringsOff);
    var f7 := f6 + Le32(indexSize);
    var f8 := f7 + Le32(crc);
    assert s[0..32] == s[..32];
    LastField(s, 0, f8, Le32(0));
    LastField(s, 0, f7, Le32(crc));
    LastField(s, 0, f6, Le32(indexSize));
    LastField(s, 0, f5, Le32(stringsOff));
    LastField(s, 0, f4, Le32(HEADER));
    LastField(s, 0, f3, Le32(count));
    LastField(s, 0, f2, Le16(0));
    LastField(s, 0, f1, [VERSION, ENTRY]);
    assert s[4..6][0] == s[4] && s[4..6][1] == s[5];
    Rd32Of(s, 0, Le32(INDEX_MAGIC));
    Rd32Of(s, 8, Le32(count));
    Rd32Of(s, 12, Le32(HEADER));
    Rd32Of(s, 16, Le32(stringsOff));
    Rd32Of(s, 20, Le32(indexSize));
    Rd32Of(s, 24, Le32(crc));
  }

  function PackHeader(contentLen: nat, indexLen: nat, crc: nat): (s: seq<byte>)
    requires contentLen < U32 && indexLen < U32 && crc < U32
    ensures |s| == HEADER
  {
    Le32(PACK_MAGIC) + [VERSION] + Zeros(3) + Le32(contentLen) + Le32(indexLen) + Le32(crc) + Zeros(12)
  }

  lemma PackHeaderFields(s: seq<byte>, contentLen: nat, indexLen: nat, crc: nat)
    requires contentLen < U32 && indexLen < U32 && crc < U32
    requires HEADER <= |s| && s[..HEADER] == PackHeader(contentLen, indexLen, crc)
    ensures Rd32(s, 0) == PACK_MAGIC && s[4] == VERSION
    ensures Rd32(s, 8) == contentLen && Rd32(s, 12) == indexLen && Rd32(s, 16) == crc
  {
    hide Le32, Zeros, Rd32;
    var f1 := Le32(PACK_MAGIC);
    var f2 := f1 + [VERSION];
    var f3 := f2 + Zeros(3);
    var f4 := f3 + Le32(contentLen);
    var f5 := f4 + Le32(indexLen);
    var f6 := f5 + Le32(crc);
    assert s[0..32] == s[..32];
    LastField(s, 0, f6, Zeros(12));
    LastField(s, 0, f5, Le32(crc));
    LastField(s, 0, f4, Le32(indexLen));
    LastField(s, 0, f3, Le32(contentLen));
    LastField(s, 0, f2, Zeros(3));
    LastField(s, 0, f1, [VERSION]);
    assert s[4..5][0] == s[4];
    Rd32Of(s, 0, Le32(PACK_MAGIC));
    Rd32Of(s, 8, Le32(contentLen));
    Rd32Of(s, 12, Le32(indexLen));
    Rd32Of(s, 16, Le32(crc));
  }

  // ---- what the firmware accepts ----

  datatype ContentInfo = ContentInfo(payloadSize: nat, dictOff: nat, dictLen: nat)

  // validate_content, as a function of the content region.
  function ContentOk(c: seq<byte>): Option<ContentInfo> {
    if |c| < HEADER || Rd32(c, 0) != CONTENT_MAGIC || c[4] != VERSION || Rd32(c, 8) != HEADER then None
    else
      var ps, doff, dlen := Rd32(c, 12), Rd32(c, 16), Rd32(c, 20);
      if ps > |c| - HEADER || dlen > ps || dlen > MAX_DICT then None
      else if dlen == 0 && doff != 0 then None
      else if dlen != 0 && doff != ps - dlen then None
      else Some(ContentInfo(ps, doff, dlen))
  }

  datatype IndexInfo = IndexInfo(count: nat, stringsOff: nat, size: nat)

  function EntryAt(x: seq<byte>, i: nat): Entry
    requires HEADER + (i + 1) * ENTRY <= |x|
  {
    DecodeEntry(x, HEADER + i * ENTRY)
  }

  // What validate_index asks of entry i.
  predicate EntryOk(x: seq<byte>, size: nat, payloadSize: nat, i: nat)
    requires HEADER + (i + 1) * ENTRY <= |x|
  {
    var e := EntryAt(x, i);
    e.id == i && e.compLen > 0 && e.uncompLen > 0 && e.contentOff + e.compLen <= payloadSize
    && e.normLen > 0 && e.dispLen > 0 && e.normOff + e.normLen <= size && e.dispOff + e.dispLen <= size
  }

  predicate IndexHeaderOk(x: seq<byte>) {
    |x| >= HEADER && Rd32(x, 0) == INDEX_MAGIC && x[4] == VERSION && x[5] == ENTRY && Rd32(x, 12) == HEADER
    && HEADER <= Rd32(x, 20) <= |x| && HEADER + Rd32(x, 8) * ENTRY <= Rd32(x, 16) <= Rd32(x, 20)
  }

  // validate_index, as a function of the index region. The version of an
  // accepted content header is VERSION.
  function IndexOk(x: seq<byte>, payloadSize: nat): Option<IndexInfo> {
    if !IndexHeaderOk(x) then None
    else
      var count, size := Rd32(x, 8), Rd32(x, 20);
      if Rd32(x, 24) != CrcValue(x[HEADER..size]) then None
      else if forall i: nat :: i < count ==> EntryOk(x, size, payloadSize, i) then Some(IndexInfo(count, Rd32(x, 16), size))
      else None
  }

  datatype PackInfo = PackInfo(contentLen: nat, indexLen: nat, content: ContentInfo, index: IndexInfo)

  // probe_pack_file, as a function of the whole file.
  function PackOk(f: seq<byte>): Option<PackInfo> {
    if |f| < HEADER || |f| > FILE_MAX || Rd32(f, 0) != PACK_MAGIC || f[4] != VERSION then None
    else
      var cl, il := Rd32(f, 8), Rd32(f, 12);
      if cl < HEADER || il < HEADER || HEADER + cl + il != |f| then None
      else if Rd32(f, 16) != CrcValue(f[HEADER..]) then None
      else
        var c := ContentOk(f[HEADER..HEADER + cl]);
        if c.None? then None
        else
          var x := IndexOk(f[HEADER + cl..], c.value.payloadSize);
          if x.None? then None else Some(PackInfo(cl, il, c.value, x.value))
  }
}
