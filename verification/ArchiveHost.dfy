/**
 The host tools' side of the archive: writing index.bin with shared strings,
 wrapping and unwrapping packs, and the parser with its checks. Its acceptance
 is compared with the firmware's.
 */
module ArchiveHost {
  import opened Bytes
  import opened Crc32
  import opened ArchiveFormat
  import opened Options
  import opened TitleNormalize

  // An entry as the tools hold it, with its titles.
  datatype Item = Item(id: nat, contentOff: nat, compLen: nat, uncompLen: nat, crc: nat,
                       norm: seq<byte>, disp: seq<byte>)

  // ---- writing the index ----

  // Bytes off to off + |t| of s are t.
  predicate Holds(s: seq<byte>, off: nat, t: seq<byte>) {
    off + |t| <= |s| && s[off..off + |t|] == t
  }

  lemma HoldsLonger(a: seq<byte>, b: seq<byte>, off: nat, t: seq<byte>)
    requires Holds(a, off, t)
    ensures Holds(a + b, off, t) && Holds(b + a, |b| + off, t)
  {
    assert (a + b)[off..off + |t|] == a[off..off + |t|];
    assert (b + a)[|b| + off..|b| + off + |t|] == a[off..off + |t|];
  }

  // Entry e of an index file x describes the item.
  ghost predicate Describes(x: seq<byte>, e: Entry, it: Item) {
    && e.id == it.id && e.contentOff == it.contentOff && e.compLen == it.compLen
    && e.uncompLen == it.uncompLen && e.crc == it.crc
    && e.normLen == |it.norm| && Holds(x, e.normOff, it.norm)
    && e.dispLen == |it.disp| && Holds(x, e.dispOff, it.disp)
  }

  // x is an index file that holds the items in order.
  ghost predicate IndexHolds(x: seq<byte>, items: seq<Item>) {
    && HEADER + |items| * ENTRY <= |x| < U32
    && x[..HEADER] == IndexHeader(|items|, HEADER + |items| * ENTRY, |x|, CrcValue(x[HEADER..]))
    && forall i: nat :: i < |items| ==> HEADER + (i + 1) * ENTRY <= |x| && Describes(x, EntryAt(x, i), items[i])
  }

  // The string table: where each string already written is.
  ghost predicate TableOk(strings: seq<byte>, table: map<seq<byte>, nat>) {
    forall s :: s in table ==> Holds(strings, table[s], s)
  }

  // add_string: identical strings are written once.
  method AddString(strings: seq<byte>, table: map<seq<byte>, nat>, s: seq<byte>)
    returns (off: nat, added: seq<byte>, table': map<seq<byte>, nat>)
    requires TableOk(strings, table)
    ensures TableOk(strings + added, table') && Holds(strings + added, off, s) && |added| <= |s|
  {
    if s in table {
      assert strings + [] == strings;
      return table[s], [], table;
    }
    off, added := |strings|, s;
    table' := table[s := off];
    assert Holds(strings + s, |strings|, s);
    hide Holds;
    forall k | k in table ensures Holds(strings + s, table[k], k) {
      HoldsLonger(strings, s, table[k], k);
    }
  }

  // What struct.pack and the file's own fields can represent.
  predicate ItemFits(it: Item) {
    it.id < U32 && it.contentOff < U32 && it.compLen < U32 && it.uncompLen < U32 && it.crc < U32
    && |it.norm| < 0x1_0000 && |it.disp| < 0x1_0000
  }

  function StringBytes(items: seq<Item>): nat {
    if |items| == 0 then 0
    else var it := items[|items| - 1]; StringBytes(items[..|items| - 1]) + |it.norm| + |it.disp|
  }

  predicate IndexFits(items: seq<Item>) {
    (forall i :: 0 <= i < |items| ==> ItemFits(items[i])) && HEADER + |items| * ENTRY + StringBytes(items) < U32
  }

  // Entry e describes the item, with the string table starting at `start`.
  ghost predicate Located(e: Entry, it: Item, strings: seq<byte>, start: nat) {
    EntryFits(e) && e.normOff >= start && e.dispOff >= start
    && e == Entry(it.id, it.contentOff, it.compLen, it.uncompLen, it.crc, e.normOff, |it.norm|, e.dispOff, |it.disp|)
    && Holds(strings, e.normOff - start, it.norm) && Holds(strings, e.dispOff - start, it.disp)
  }

  function EncodeAll(ents: seq<Entry>): (s: seq<byte>)
    requires forall i :: 0 <= i < |ents| ==> EntryFits(ents[i])
    ensures |s| == |ents| * ENTRY
  {
    if |ents| == 0 then [] else EncodeAll(ents[..|ents| - 1]) + EncodeEntry(ents[|ents| - 1])
  }

  lemma {:induction false} EncodeAllAt(ents: seq<Entry>, i: nat)
    requires (forall k :: 0 <= k < |ents| ==> EntryFits(ents[k])) && i < |ents|
    ensures Holds(EncodeAll(ents), i * ENTRY, EncodeEntry(ents[i]))
  {
    hide EncodeEntry;
    var n := |ents| - 1;
    var front := EncodeAll(ents[..n]);
    if i < n {
      EncodeAllAt(ents[..n], i);
      HoldsLonger(front, EncodeEntry(ents[n]), i * ENTRY, EncodeEntry(ents[i]));
    } else {
      assert (front + EncodeEntry(ents[n]))[n * ENTRY..n * ENTRY + ENTRY] == EncodeEntry(ents[n]);
    }
  }

  // One entry of the index, with its two strings.
  method AddItem(strings: seq<byte>, table: map<seq<byte>, nat>, it: Item, start: nat)
    returns (e: Option<Entry>, added: seq<byte>, table': map<seq<byte>, nat>)
    requires TableOk(strings, table)
    ensures TableOk(strings + added, table') && |added| <= |it.norm| + |it.disp|
    ensures e.Some? ==> Located(e.value, it, strings + added, start)
    ensures ItemFits(it) && start + |strings + added| < U32 ==> e.Some?
  {
    hide Holds;
    var norm, added1, table1 := AddString(strings, table, it.norm);
    var disp, added2, table2 := AddString(strings + added1, table1, it.disp);
    HoldsLonger(strings + added1, added2, norm, it.norm);
    added, table' := added1 + added2, table2;
    assert strings + added1 + added2 == strings + added;
    HoldsBound(strings + added, norm, it.norm);
    HoldsBound(strings + added, disp, it.disp);
    if !ItemFits(it) || start + norm >= U32 || start + disp >= U32 {
      return None, added, table';
    }
    e := Some(Entry(it.id, it.contentOff, it.compLen, it.uncompLen, it.crc, start + norm, |it.norm|, start + disp, |it.disp|));
  }

  // pack_index. Nothing is written when a field does not fit.
  method PackIndex(items: seq<Item>) returns (r: Option<seq<byte>>)
    ensures r.Some? ==> IndexHolds(r.value, items)
    ensures IndexFits(items) ==> r.Some?
  {
    hide Holds, EncodeAll, StringBytes, EntryFits, ItemFits;
    var start := HEADER + |items| * ENTRY;
    var strings, table := [], map[];
    var entryBytes := [];
    ghost var ents: seq<Entry> := [];
    StringsEmpty(items);
    for i := 0 to |items|
      invariant |ents| == i && TableOk(strings, table)
      invariant forall k :: 0 <= k < i ==> EntryFits(ents[k]) && Located(ents[k], items[k], strings, start)
      invariant entryBytes == EncodeAll(ents)
      invariant |strings| <= StringBytes(items[..i])
    {
      var e, added;
      e, added, table := AddItem(strings, table, items[i], start);
      StringsStep(items, i);
      if e.None? {
        if IndexFits(items) { StringsBound(items, i + 1); }
        return None;
      }
      KeepLocated(ents, items, strings, added, start);
      EncodeAllSnoc(ents, e.value);
      strings := strings + added;
      entryBytes := entryBytes + EncodeEntry(e.value);
      ents := ents + [e.value];
    }
    var body := entryBytes + strings;
    var indexSize := HEADER + |body|;
    assert items[..|items|] == items;
    if indexSize >= U32 {
      return None;
    }
    var x := IndexHeader(|items|, start, indexSize, CrcValue(body)) + body;
    WrittenIndexHolds(x, items, ents, strings);
    r := Some(x);
  }

  lemma StringsEmpty(items: seq<Item>)
    ensures StringBytes(items[..0]) == 0 && EncodeAll([]) == []
  {}

  lemma StringsStep(items: seq<Item>, i: nat)
    requires i < |items|
    ensures StringBytes(items[..i + 1]) == StringBytes(items[..i]) + |items[i].norm| + |items[i].disp|
  {
    assert items[..i + 1][..i] == items[..i];
  }

  lemma {:induction false} StringsBound(items: seq<Item>, n: nat)
    requires n <= |items|
    ensures StringBytes(items[..n]) <= StringBytes(items)
    decreases |items| - n
  {
    if n < |items| {
      StringsStep(items, n);
      StringsBound(items, n + 1);
    } else {
      assert items[..n] == items;
    }
  }

  lemma HoldsBound(s: seq<byte>, off: nat, t: seq<byte>)
    requires Holds(s, off, t)
    ensures off + |t| <= |s|
  {}

  lemma EncodeAllSnoc(ents: seq<Entry>, e: Entry)
    requires (forall k :: 0 <= k < |ents| ==> EntryFits(ents[k])) && EntryFits(e)
    ensures EncodeAll(ents + [e]) == EncodeAll(ents) + EncodeEntry(e)
  {
    assert (ents + [e])[..|ents|] == ents;
  }

  lemma KeepLocated(ents: seq<Entry>, items: seq<Item>, strings: seq<byte>, added: seq<byte>, start: nat)
    requires |ents| <= |items| && forall k :: 0 <= k < |ents| ==> Located(ents[k], items[k], strings, start)
    ensures forall k :: 0 <= k < |ents| ==> Located(ents[k], items[k], strings + added, start)
  {
    hide Holds, EntryFits;
    forall k | 0 <= k < |ents| ensures Located(ents[k], items[k], strings + added, start) {
      HoldsLonger(strings, added, ents[k].normOff - start, items[k].norm);
      HoldsLonger(strings, added, ents[k].dispOff - start, items[k].disp);
    }
  }

  lemma WrittenIndexHolds(x: seq<byte>, items: seq<Item>, ents: seq<Entry>, strings: seq<byte>)
    requires |ents| == |items| && HEADER + |items| * ENTRY + |strings| < U32
    requires forall k :: 0 <= k < |ents| ==> EntryFits(ents[k])
    requires forall k :: 0 <= k < |ents| ==> Located(ents[k], items[k], strings, HEADER + |items| * ENTRY)
    requires var body := EncodeAll(ents) + strings;
             x == IndexHeader(|items|, HEADER + |items| * ENTRY, HEADER + |body|, CrcValue(body)) + body
    ensures IndexHolds(x, items)
  {
    hide CrcValue, IndexHeader, EncodeAll, EncodeEntry, DecodeEntry, Holds;
    var start, all := HEADER + |items| * ENTRY, EncodeAll(ents);
    var body := all + strings;
    var h := IndexHeader(|items|, start, HEADER + |body|, CrcValue(body));
    assert x[HEADER..] == body && x[..HEADER] == h;
    forall i: nat | i < |items|
      ensures HEADER + (i + 1) * ENTRY <= |x| && Describes(x, EntryAt(x, i), items[i])
    {
      EncodeAllAt(ents, i);
      HoldsLonger(all, strings, i * ENTRY, EncodeEntry(ents[i]));
      HoldsLonger(body, h, i * ENTRY, EncodeEntry(ents[i]));
      HoldsEntry(x, HEADER + i * ENTRY, ents[i]);
      var no, d := ents[i].normOff - start, ents[i].dispOff - start;
      HoldsLonger(strings, h + all, no, items[i].norm);
      HoldsLonger(strings, h + all, d, items[i].disp);
      assert (h + all) + strings == x;
    }
  }

  lemma HoldsEntry(x: seq<byte>, at: nat, e: Entry)
    requires EntryFits(e) && Holds(x, at, EncodeEntry(e))
    ensures at + ENTRY <= |x| && DecodeEntry(x, at) == e
  {
    EntryRoundTrip(e, x, at);
  }

  // ---- reading the index ----

  function ItemAt(x: seq<byte>, i: nat): Item
    requires HEADER + (i + 1) * ENTRY <= |x|
    requires var e := EntryAt(x, i); e.normOff + e.normLen <= |x| && e.dispOff + e.dispLen <= |x|
  {
    var e := EntryAt(x, i);
    Item(e.id, e.contentOff, e.compLen, e.uncompLen, e.crc,
         x[e.normOff..e.normOff + e.normLen], x[e.dispOff..e.dispOff + e.dispLen])
  }

  // The checks of Archive.__init__ on the index header.
  predicate HostHeaderOk(x: seq<byte>) {
    |x| >= HEADER && Rd32(x, 0) == INDEX_MAGIC && x[4] == VERSION && x[5] == ENTRY && Rd32(x, 20) == |x|
    && Rd32(x, 12) == HEADER && HEADER + Rd32(x, 8) * ENTRY <= |x| && Rd32(x, 16) <= |x|
    && Rd32(x, 24) == CrcValue(x[HEADER..])
  }

  ghost predicate EntriesOk(x: seq<byte>, payloadSize: nat, n: nat)
  {
    HEADER + n * ENTRY <= |x| && forall i: nat :: i < n ==> HEADER + (i + 1) * ENTRY <= |x| && EntryOk(x, |x|, payloadSize, i)
  }

  function ItemsTo(x: seq<byte>, payloadSize: nat, n: nat): (items: seq<Item>)
    requires EntriesOk(x, payloadSize, n)
    ensures |items| == n
  {
    seq(n, i requires 0 <= i < n && EntriesOk(x, payloadSize, n) => assert EntryOk(x, |x|, payloadSize, i); ItemAt(x, i))
  }

  // Stored titles are normalized and strictly increasing.
  ghost predicate TitlesOk(items: seq<Item>) {
    (forall i :: 0 <= i < |items| ==> Normal(items[i].norm) == items[i].norm)
    && forall i :: 0 < i < |items| ==> Less(items[i - 1].norm, items[i].norm)
  }

  // What Archive accepts.
  ghost predicate ArchiveOk(c: seq<byte>, x: seq<byte>) {
    ContentOk(c).Some? && HostHeaderOk(x)
    && EntriesOk(x, ContentOk(c).value.payloadSize, Rd32(x, 8))
    && TitlesOk(ItemsTo(x, ContentOk(c).value.payloadSize, Rd32(x, 8)))
  }

  // Archive.__init__: the entries, or nothing if a check fails.
  method ParseArchive(c: seq<byte>, x: seq<byte>) returns (r: Option<seq<Item>>)
    ensures r.Some? <==> ArchiveOk(c, x)
    ensures r.Some? ==> r.value == ItemsTo(x, ContentOk(c).value.payloadSize, Rd32(x, 8))
  {
    hide Rd32, ContentOk, Normal, Less, CrcValue, EntryAt, TitlesOk;
    var info := ContentOk(c);
    if info.None? || !HostHeaderOk(x) {
      return None;
    }
    var ps, count := info.value.payloadSize, Rd32(x, 8);
    var items := [];
    TitlesNone();
    for i := 0 to count
      invariant EntriesOk(x, ps, i) && items == ItemsTo(x, ps, i) && TitlesOk(items)
    {
      if !EntryOk(x, |x|, ps, i) {
        assert !EntriesOk(x, ps, count);
        return None;
      }
      ItemsStep(x, ps, i);
      var it := ItemAt(x, i);
      TitlesSnoc(items, it);
      var norm := NormalizeTitle(it.norm);
      if norm != it.norm || (i > 0 && !Less(items[i - 1].norm, it.norm)) {
        if EntriesOk(x, ps, count) {
          ItemsPrefix(x, ps, i + 1, count);
          TitlesPrefix(ItemsTo(x, ps, i + 1), ItemsTo(x, ps, count));
        }
        return None;
      }
      items := items + [it];
    }
    r := Some(items);
  }

  lemma TitlesNone()
    ensures TitlesOk([])
  {}

  lemma TitlesSnoc(items: seq<Item>, it: Item)
    ensures TitlesOk(items + [it]) <==>
            TitlesOk(items) && Normal(it.norm) == it.norm && (|items| > 0 ==> Less(items[|items| - 1].norm, it.norm))
  {
    hide Normal, Less;
    var all := items + [it];
    assert all[|items|] == it && forall i :: 0 <= i < |items| ==> all[i] == items[i];
  }

  lemma ItemsStep(x: seq<byte>, ps: nat, i: nat)
    requires EntriesOk(x, ps, i) && HEADER + (i + 1) * ENTRY <= |x| && EntryOk(x, |x|, ps, i)
    ensures EntriesOk(x, ps, i + 1) && ItemsTo(x, ps, i + 1) == ItemsTo(x, ps, i) + [ItemAt(x, i)]
  {
    hide EntryAt;
    assert EntriesOk(x, ps, i + 1);
    var a := ItemsTo(x, ps, i + 1);
    assert a[..i] == ItemsTo(x, ps, i) && a == a[..i] + [a[i]];
  }

  lemma ItemsPrefix(x: seq<byte>, ps: nat, m: nat, n: nat)
    requires EntriesOk(x, ps, m) && EntriesOk(x, ps, n) && m <= n
    ensures ItemsTo(x, ps, m) <= ItemsTo(x, ps, n)
  {
    hide EntryAt;
    assert ItemsTo(x, ps, n)[..m] == ItemsTo(x, ps, m);
  }

  lemma TitlesPrefix(a: seq<Item>, b: seq<Item>)
    requires a <= b
    ensures TitlesOk(b) ==> TitlesOk(a)
  {
    hide Normal, Less;
    forall i | 0 <= i < |a| ensures a[i] == b[i] {}
  }

  // ---- the two validators compared ----

  predicate StringsAfterEntries(x: seq<byte>) {
    |x| >= HEADER && HEADER + Rd32(x, 8) * ENTRY <= Rd32(x, 16)
  }

  // What Archive checks and the firmware does not: the index fills its file,
  // and its titles are normalized and sorted.
  ghost predicate HostOnly(x: seq<byte>, payloadSize: nat) {
    |x| >= HEADER && Rd32(x, 20) == |x| && EntriesOk(x, payloadSize, Rd32(x, 8))
    && TitlesOk(ItemsTo(x, payloadSize, Rd32(x, 8)))
  }

  // The firmware additionally asks that the string table start after the entries.
  lemma HostVersusFirmware(c: seq<byte>, x: seq<byte>)
    requires ContentOk(c).Some?
    ensures var ps := ContentOk(c).value.payloadSize;
            ArchiveOk(c, x) && StringsAfterEntries(x) <==> IndexOk(x, ps).Some? && HostOnly(x, ps)
  {
    hide Rd32, ContentOk, CrcValue, EntryOk, TitlesOk;
    assert |x| >= HEADER ==> x[HEADER..|x|] == x[HEADER..];
  }
}
