/**
 The firmware's validators and accessors, over bounds-checked sources. The
 validators are proved equal to the acceptance functions of ArchiveFormat; the
 accessors are proved to stay inside an accepted archive, without 32-bit wrap.
 */
module ArchiveReader {
  import opened Bytes
  import opened Crc32
  import opened ArchiveFormat
  import opened Options
  import TL = TitleLookup

  // pw_archive_source_t: `size` bytes at `base` of a file or partition.
  datatype Source = Source(data: seq<byte>, base: nat, size: nat)

  predicate Readable(src: Source) { src.base + src.size <= |src.data| < U32 }

  function Region(src: Source): seq<byte>
    requires Readable(src)
  {
    src.data[src.base..src.base + src.size]
  }

  // read_exact through file_read or flash_read, whose offset is 32 bits wide.
  function ReadExact(src: Source, off: nat, len: nat): (r: Option<seq<byte>>)
    requires Readable(src)
    ensures r.Some? <==> off + len <= src.size
    ensures r.Some? ==> src.base + off < U32 && r.value == Region(src)[off..off + len]
  {
    if off > src.size || len > src.size - off then None
    else
      var at := Wrap32(src.base + off);
      if at + len <= |src.data| then Some(src.data[at..at + len]) else None
  }

  method ReadInto(src: Source, off: nat, buf: array<byte>, len: nat) returns (ok: bool)
    requires Readable(src) && len <= buf.Length
    modifies buf
    ensures ok <==> off + len <= src.size
    ensures ok ==> buf[..len] == Region(src)[off..off + len]
  {
    var r := ReadExact(src, off, len);
    ok := r.Some?;
    if ok {
      forall k | 0 <= k < len { buf[k] := r.value[k]; }
    }
  }

  method ValidateContent(src: Source) returns (r: Option<ContentInfo>)
    requires Readable(src)
    ensures r == ContentOk(Region(src))
  {
    hide Rd32;
    ghost var c := Region(src);
    var hdr := ReadExact(src, 0, HEADER);
    if hdr.None? {
      return None;
    }
    var h := hdr.value;
    HeaderField(c, h, 0);
    HeaderField(c, h, 8);
    HeaderField(c, h, 12);
    HeaderField(c, h, 16);
    HeaderField(c, h, 20);
    if Rd32(h, 0) != CONTENT_MAGIC {
      return None;
    }
    if h[4] != VERSION {
      return None;
    }
    var hsize := Rd32(h, 8);
    if hsize != HEADER {
      return None;
    }
    var ps, doff, dlen := Rd32(h, 12), Rd32(h, 16), Rd32(h, 20);
    if hsize > src.size || ps > src.size - hsize {
      return None;
    }
    if dlen > ps {
      return None;
    }
    if dlen > MAX_DICT {
      return None;
    }
    if dlen == 0 {
      if doff != 0 {
        return None;
      }
    } else if doff != ps - dlen {
      return None;
    }
    r := Some(ContentInfo(ps, doff, dlen));
  }

  lemma HeaderField(c: seq<byte>, h: seq<byte>, at: nat)
    requires at + 4 <= HEADER <= |c| && h == c[0..HEADER]
    ensures Rd32(h, at) == Rd32(c, at)
  {}

  // CRC of index bytes from the header to `size`, 512 at a time.
  method IndexBodyCrc(src: Source, size: nat) returns (crc: Option<bv32>)
    requires Readable(src) && HEADER <= size <= src.size
    ensures crc == Some(Crc(Region(src)[HEADER..size]))
  {
    hide Extend;
    ghost var x := Region(src);
    var buf := new byte[512];
    var c: bv32 := 0;
    var off := HEADER;
    ExtendNothing(0);
    assert x[HEADER..off] == [];
    while off < size
      invariant HEADER <= off <= size && c == Crc(x[HEADER..off])
    {
      var n := size - off;
      if n > 512 {
        n := 512;
      }
      var ok := ReadInto(src, off, buf, n);
      if !ok {
        return None;
      }
      assert x[HEADER..off] + x[off..off + n] == x[HEADER..off + n];
      ExtendConcat(0, x[HEADER..off], x[off..off + n]);
      c := Extend(c, buf[..n]);
      off := off + n;
    }
    crc := Some(c);
  }

  method ValidateIndex(src: Source, payloadSize: nat) returns (r: Option<IndexInfo>)
    requires Readable(src)
    ensures r == IndexOk(Region(src), payloadSize)
  {
    hide Rd32, EntryOk, Crc;
    ghost var x := Region(src);
    var hdr := ReadExact(src, 0, HEADER);
    if hdr.None? {
      return None;
    }
    var h := hdr.value;
    HeaderField(x, h, 0);
    HeaderField(x, h, 8);
    HeaderField(x, h, 12);
    HeaderField(x, h, 16);
    HeaderField(x, h, 20);
    HeaderField(x, h, 24);
    if Rd32(h, 0) != INDEX_MAGIC || h[4] != VERSION || h[5] != ENTRY {
      return None;
    }
    var count, eoff, soff, size, stored := Rd32(h, 8), Rd32(h, 12), Rd32(h, 16), Rd32(h, 20), Rd32(h, 24);
    if eoff != HEADER || size > src.size || size < HEADER || soff > size || count > (size - HEADER) / ENTRY {
      return None;
    }
    if soff < Wrap32(HEADER + Wrap32(count * ENTRY)) {
      return None;
    }
    assert IndexHeaderOk(x);
    var crc := IndexBodyCrc(src, size);
    if crc.None? || crc.value as nat != stored {
      return None;
    }
    for i := 0 to count
      invariant forall k: nat :: k < i ==> EntryOk(x, size, payloadSize, k)
    {
      var ok := ValidateEntry(src, i, size, payloadSize);
      if !ok {
        return None;
      }
    }
    r := Some(IndexInfo(count, soff, size));
  }

  // The body of the entry loop.
  method ValidateEntry(src: Source, i: nat, size: nat, payloadSize: nat) returns (ok: bool)
    requires Readable(src) && HEADER + (i + 1) * ENTRY <= size <= src.size
    ensures ok == EntryOk(Region(src), size, payloadSize, i)
  {
    hide DecodeEntry, Rd32, Rd16;
    ghost var x := Region(src);
    var at := HEADER + i * ENTRY;
    var ent := ReadExact(src, Wrap32(HEADER + Wrap32(i * ENTRY)), ENTRY);
    if ent.None? {
      return false;
    }
    SameEntry(x, ent.value, at);
    var e := DecodeEntry(ent.value, 0);
    if e.id != i {
      return false;
    }
    if e.compLen == 0 || e.uncompLen == 0 || e.contentOff > payloadSize || e.compLen > payloadSize - e.contentOff {
      return false;
    }
    if e.normLen == 0 || e.dispLen == 0 || e.normOff > size || e.normLen > size - e.normOff
       || e.dispOff > size || e.dispLen > size - e.dispOff {
      return false;
    }
    ok := true;
  }

  lemma SameEntry(x: seq<byte>, ent: seq<byte>, at: nat)
    requires at + ENTRY <= |x| && ent == x[at..at + ENTRY]
    ensures DecodeEntry(ent, 0) == DecodeEntry(x, at)
  {
    SameField(x, ent, at, 0);
    SameField(x, ent, at, 4);
    SameField(x, ent, at, 8);
    SameField(x, ent, at, 12);
    SameField(x, ent, at, 16);
    SameField(x, ent, at, 20);
    SameField(x, ent, at, 24);
    SameField(x, ent, at, 26);
    SameField(x, ent, at, 30);
    hide Rd32, Rd16;
  }

  lemma SameField(x: seq<byte>, ent: seq<byte>, at: nat, i: nat)
    requires at + ENTRY <= |x| && ent == x[at..at + ENTRY] && i + 4 <= ENTRY
    ensures Rd32(ent, i) == Rd32(x, at + i) && Rd16(ent, i) == Rd16(x, at + i)
  {}

  // CRC of the wrapped bytes, 1024 at a time.
  method PayloadCrc(f: seq<byte>, length: nat) returns (crc: Option<bv32>)
    requires HEADER + length <= |f| < U32
    ensures crc == Some(Crc(f[HEADER..HEADER + length]))
  {
    hide Extend;
    var src := Source(f, 0, |f|);
    assert Region(src) == f;
    var buf := new byte[1024];
    var c: bv32 := 0;
    var remaining, off := length, HEADER;
    ExtendNothing(0);
    assert f[HEADER..off] == [];
    while remaining > 0
      invariant HEADER <= off <= HEADER + length && off + remaining == HEADER + length && c == Crc(f[HEADER..off])
    {
      var n := if remaining > 1024 then 1024 else remaining;
      var ok := ReadInto(src, off, buf, n);
      if !ok {
        return None;
      }
      assert f[HEADER..off] + f[off..off + n] == f[HEADER..off + n];
      ExtendConcat(0, f[HEADER..off], f[off..off + n]);
      c := Extend(c, buf[..n]);
      off := off + n;
      remaining := remaining - n;
    }
    crc := Some(c);
  }

  method ProbePackFile(f: seq<byte>) returns (r: Option<PackInfo>)
    ensures r == PackOk(f)
  {
    hide Rd32, ContentOk, IndexOk, Crc;
    if |f| < HEADER {
      return None;
    }
    if Rd32(f, 0) != PACK_MAGIC {
      return None;
    }
    if f[4] != VERSION {
      return None;
    }
    var contentLen, indexLen := Rd32(f, 8), Rd32(f, 12);
    if contentLen < HEADER || indexLen < HEADER {
      return None;
    }
    // ftell reports a failure where a long cannot hold the position.
    var fsize := if |f| <= FILE_MAX then |f| else -1;
    var expected := HEADER + contentLen + indexLen;
    if fsize < 0 || expected > U32 - 1 || fsize != expected {
      return None;
    }
    var crc := PayloadCrc(f, contentLen + indexLen);
    assert f[HEADER..HEADER + contentLen + indexLen] == f[HEADER..];
    if crc.None? || crc.value as nat != Rd32(f, 16) {
      return None;
    }
    var content, index := Source(f, HEADER, contentLen), Source(f, HEADER + contentLen, indexLen);
    assert Region(index) == f[HEADER + contentLen..];
    var c := ValidateContent(content);
    if c.None? {
      return None;
    }
    var x := ValidateIndex(index, c.value.payloadSize);
    if x.None? {
      return None;
    }
    r := Some(PackInfo(contentLen, indexLen, c.value, x.value));
  }

  // ---- reading an accepted archive ----

  datatype Archive = Archive(content: Source, index: Source, payloadSize: nat, dictOff: nat, dictLen: nat,
                             count: nat, indexSize: nat)

  // What both validators passing says.
  ghost predicate Accepted(ca: Archive) {
    Readable(ca.content) && Readable(ca.index)
    && ContentOk(Region(ca.content)) == Some(ContentInfo(ca.payloadSize, ca.dictOff, ca.dictLen))
    && exists stringsOff :: IndexOk(Region(ca.index), ca.payloadSize) == Some(IndexInfo(ca.count, stringsOff, ca.indexSize))
  }

  // The archive inside an accepted pack file.
  function OpenPack(f: seq<byte>): (r: Option<Archive>)
    ensures r.Some? <==> PackOk(f).Some?
  {
    var p := PackOk(f);
    if p.None? then None
    else
      var i := p.value;
      Some(Archive(Source(f, HEADER, i.contentLen), Source(f, HEADER + i.contentLen, i.indexLen),
                   i.content.payloadSize, i.content.dictOff, i.content.dictLen, i.index.count, i.index.size))
  }

  lemma OpenPackAccepted(f: seq<byte>)
    requires PackOk(f).Some?
    ensures Accepted(OpenPack(f).value)
  {
    hide ContentOk, IndexOk, Rd32, CrcValue;
    var i := PackOk(f).value;
    assert f[HEADER + i.contentLen..] == f[HEADER + i.contentLen..HEADER + i.contentLen + i.indexLen];
  }

  // ca_get_article
  function GetArticle(ca: Archive, id: nat): Option<Entry>
    requires Readable(ca.index)
  {
    if id >= ca.count then None
    else
      var ent := ReadExact(ca.index, Wrap32(HEADER + Wrap32(id * ENTRY)), ENTRY);
      if ent.None? then None
      else
        var e := DecodeEntry(ent.value, 0);
        if e.contentOff > ca.payloadSize || e.compLen > ca.payloadSize - e.contentOff then None else Some(e)
  }

  // ca_read_payload: no bound but the payload's is checked before the read.
  function ReadPayload(ca: Archive, off: nat, len: nat): Option<seq<byte>> {
    if off > ca.payloadSize || len > ca.payloadSize - off then None
    else
      var at := Wrap32(ca.content.base + Wrap32(HEADER + off));
      if at + len <= |ca.content.data| then Some(ca.content.data[at..at + len]) else None
  }

  // ca_index_read
  function IndexRead(ca: Archive, off: nat, len: nat): Option<seq<byte>> {
    if off > ca.indexSize || len > ca.indexSize - off then None
    else
      var at := Wrap32(ca.index.base + off);
      if at + len <= |ca.index.data| then Some(ca.index.data[at..at + len]) else None
  }

  // Every article of an accepted archive can be looked up, and its entry is in
  // bounds: no later check can fail on it.
  lemma ArticleInBounds(ca: Archive, id: nat)
    requires Accepted(ca) && id < ca.count
    ensures GetArticle(ca, id).Some?
    ensures var e := GetArticle(ca, id).value;
            && e == EntryAt(Region(ca.index), id) && e.id == id
            && 0 < e.compLen && e.contentOff + e.compLen <= ca.payloadSize
            && 0 < e.normLen && e.normOff + e.normLen <= ca.indexSize
            && 0 < e.dispLen && e.dispOff + e.dispLen <= ca.indexSize
  {
    hide DecodeEntry, Rd32, CrcValue;
    var x := Region(ca.index);
    assert EntryOk(x, ca.indexSize, ca.payloadSize, id);
    SameEntry(x, x[HEADER + id * ENTRY..HEADER + (id + 1) * ENTRY], HEADER + id * ENTRY);
  }

  // Payload reads that pass their check stay inside the content region.
  lemma PayloadReadInside(ca: Archive, off: nat, len: nat)
    requires Accepted(ca)
    ensures off + len <= ca.payloadSize ==>
              ReadPayload(ca, off, len) == Some(Region(ca.content)[HEADER + off..HEADER + off + len])
    ensures off + len > ca.payloadSize ==> ReadPayload(ca, off, len).None?
  {
    hide Rd32;
    assert HEADER + ca.payloadSize <= ca.content.size;
    if off + len <= ca.payloadSize {
      RegionSlice(ca.content, HEADER + off, len);
    }
  }

  lemma IndexReadInside(ca: Archive, off: nat, len: nat)
    requires Accepted(ca)
    ensures off + len <= ca.indexSize ==> IndexRead(ca, off, len) == Some(Region(ca.index)[off..off + len])
    ensures off + len > ca.indexSize ==> IndexRead(ca, off, len).None?
  {
    hide Rd32, CrcValue, EntryOk;
    assert ca.indexSize <= ca.index.size;
    if off + len <= ca.indexSize {
      RegionSlice(ca.index, off, len);
    }
  }

  lemma RegionSlice(src: Source, off: nat, len: nat)
    requires Readable(src) && off + len <= src.size
    ensures src.data[src.base + off..src.base + off + len] == Region(src)[off..off + len]
  {}

  // The dictionary is the payload's tail, small enough for the inflate ring.
  lemma DictionaryAtTail(ca: Archive)
    requires Accepted(ca)
    ensures ca.dictLen <= MAX_DICT && (ca.dictLen > 0 ==> ca.dictOff + ca.dictLen == ca.payloadSize)
    ensures ReadPayload(ca, ca.dictOff, ca.dictLen).Some?
  {
    PayloadReadInside(ca, ca.dictOff, ca.dictLen);
    hide Rd32;
  }

  // The index as title lookup sees it.
  function TitleIndex(ca: Archive): TL.Index
    requires Readable(ca.index) && ca.indexSize <= ca.index.size
  {
    TL.Index(HEADER, ca.count, Region(ca.index)[..ca.indexSize], ca.indexSize)
  }

  // An accepted index is fit for title lookup, whatever the length of its
  // titles, and the titles are the bytes that its entries name.
  lemma TitlesReadable(ca: Archive)
    requires Accepted(ca)
    ensures ca.indexSize <= ca.index.size
    ensures TL.WellFormed(TitleIndex(ca))
    ensures forall id: nat :: id < ca.count ==>
              HEADER + (id + 1) * ENTRY <= ca.index.size
              && var e := EntryAt(Region(ca.index), id);
                 e.normOff + e.normLen <= ca.index.size
                 && TL.Titles(TitleIndex(ca))[id] == Region(ca.index)[e.normOff..e.normOff + e.normLen]
  {
    hide Rd32, Rd16, CrcValue;
    var x, ix := Region(ca.index), TitleIndex(ca);
    assert IndexHeaderOk(x);
    forall id: nat | id < ca.count
      ensures HEADER + (id + 1) * ENTRY <= ca.indexSize && TL.GoodEntry(ix, id)
      ensures var e := EntryAt(x, id);
              e.normOff + e.normLen <= ca.indexSize && TL.Title(ix, id) == x[e.normOff..e.normOff + e.normLen]
    {
      assert EntryOk(x, ca.indexSize, ca.payloadSize, id);
      var at := HEADER + id * ENTRY;
      PrefixField(x, ca.indexSize, at + 20);
      PrefixField(x, ca.indexSize, at + 24);
    }
  }

  lemma PrefixField(x: seq<byte>, n: nat, at: nat)
    requires at + 4 <= n <= |x|
    ensures Rd32(x[..n], at) == Rd32(x, at) && Rd16(x[..n], at) == Rd16(x, at)
  {}
}
