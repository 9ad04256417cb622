/**
 Archives that the firmware accepts although its own documentation or its title
 lookup asks for more: titles out of order, and titles too long to be searched.
 */
module ArchiveGaps {
  import opened Bytes
  import opened ArchiveFormat
  import opened ArchiveHost
  import opened ArchiveReader
  import opened ArchiveServed
  import opened Crc32
  import opened Options
  import opened PackBuilder
  import TL = TitleLookup

  function TwoItems(a: seq<byte>, b: seq<byte>): seq<Item> {
    [Item(0, 0, 1, 1, 0, a, [0x61]), Item(1, 0, 1, 1, 0, b, [0x62])]
  }

  lemma TwoItemsFit(a: seq<byte>, b: seq<byte>)
    requires 0 < |a| < 0x1_0000 && 0 < |b| < 0x1_0000
    ensures IndexFits(TwoItems(a, b)) && BoundedItems(TwoItems(a, b), 1)
  {
    var items := TwoItems(a, b);
    assert items[..1][..0] == [] && items[..1] == [items[0]];
    assert StringBytes(items[..1]) == |a| + 1;
  }

  // Any two titles, in any order and of any length, are the titles of an
  // archive that both firmware validators accept.
  method TwoTitles(a: seq<byte>, b: seq<byte>) returns (ca: Archive)
    requires 0 < |a| < 0x1_0000 && 0 < |b| < 0x1_0000
    ensures Accepted(ca) && Readable(ca.content) && Readable(ca.index) && ca.count == 2 && ca.indexSize <= ca.index.size
    ensures TL.WellFormed(TitleIndex(ca)) && TL.Titles(TitleIndex(ca)) == [a, b]
    ensures var c, x := Region(ca.content), Region(ca.index);
            ContentOk(c) == Some(ContentInfo(1, 0, 0)) && HostHeaderOk(x) && EntriesOk(x, 1, 2)
            && Rd32(x, 8) == 2 && ItemsTo(x, 1, 2) == TwoItems(a, b)
  {
    hide IndexHolds, ContentHeader, CrcValue, Rd32, EntryAt, IndexFits, BoundedItems, TwoItems;
    var items := TwoItems(a, b);
    TwoItemsFit(a, b);
    var index := PackIndex(items);
    var x := index.value;
    var c := ContentHeader(1, 0, 0) + [0];
    assert c == ContentHeader(1, 0, 0) + ([0] + []);
    WrittenContent(c, [0], []);
    assert |items| == 2 by { TwoItemsLength(a, b); }
    WrittenIndexParses(x, items, 1);
    HoldsSize(x, items);
    ca := Archive(Source(c, 0, |c|), Source(x, 0, |x|), 1, 0, 0, 2, |x|);
    assert Region(ca.content) == c && Region(ca.index) == x;
    TitlesReadable(ca);
    TitlesAreItems(ca, items);
    TwoNorms(a, b);
  }

  lemma TwoItemsLength(a: seq<byte>, b: seq<byte>)
    ensures |TwoItems(a, b)| == 2
  {}

  lemma TwoNorms(a: seq<byte>, b: seq<byte>)
    ensures TwoItems(a, b)[0].norm == a && TwoItems(a, b)[1].norm == b
  {}

  lemma HoldsSize(x: seq<byte>, items: seq<Item>)
    requires IndexHolds(x, items)
    ensures HEADER <= |x| < U32
  {}

  // The firmware accepts titles out of order; the host's parser does not.
  method UnsortedAccepted(a: seq<byte>, b: seq<byte>) returns (ca: Archive)
    requires 0 < |a| < 0x1_0000 && 0 < |b| < 0x1_0000 && !Less(a, b)
    ensures Accepted(ca) && !ArchiveOk(Region(ca.content), Region(ca.index))
    ensures ca.indexSize <= ca.index.size && TL.WellFormed(TitleIndex(ca))
    ensures TL.Titles(TitleIndex(ca)) == [a, b] && !TL.Sorted(TL.Titles(TitleIndex(ca)))
  {
    hide ContentOk, IndexOk, Less, HostHeaderOk, EntriesOk, TL.WellFormed, Rd32, TL.Title;
    ca := TwoTitles(a, b);
    NotSorted(a, b);
  }

  lemma NotSorted(a: seq<byte>, b: seq<byte>)
    requires !Less(a, b)
    ensures !TitlesOk(TwoItems(a, b)) && !TL.Sorted([a, b])
  {
    hide Less;
    var items := TwoItems(a, b);
    assert items[0].norm == a && items[1].norm == b;
    assert exists i :: 0 < i < |items| && !Less(items[i - 1].norm, items[i].norm) by {
      assert !Less(items[1 - 1].norm, items[1].norm);
    }
    assert [a, b][0] == a && [a, b][1] == b;
  }

  const LONG: seq<byte> := seq(256, _ => 0x61)
  const LONGER: seq<byte> := seq(257, _ => 0x61)
  const LAST: seq<byte> := [0x62, 0x20, 0x63]
  const WORD: seq<byte> := [0x63]

  lemma LastHasWord()
    ensures Less(LONG, LAST) && Less(LONGER, LAST) && TL.WordStart(LAST, WORD)
  {
    assert TL.MatchAt(LAST, WORD, 2);
  }

  // A title of 256 bytes: the titles are sorted and both are found, but the word
  // search gives up on it and misses the hit after it.
  method LongTitleStopsScan() returns (ca: Archive, found: bool, id: nat, scanned: bool)
    ensures Accepted(ca) && ca.indexSize <= ca.index.size && TL.WellFormed(TitleIndex(ca))
    ensures TL.Titles(TitleIndex(ca)) == [LONG, LAST] && TL.Sorted([LONG, LAST]) && TL.WordStart(LAST, WORD)
    ensures found && id == 1 && !scanned
  {
    hide Accepted, Less, TL.WellFormed, TL.WordStart, TL.Title;
    LastHasWord();
    ca := TwoTitles(LONG, LAST);
    ShortBoth(LONG, LAST, LAST);
    found, id := TL.Exact(TitleIndex(ca), LAST);
    var ids := new nat[1];
    LongFirst(LONG, LAST, WORD);
    var count;
    scanned, count := TL.WordStartSearch(TitleIndex(ca), WORD, ids, 1);
  }

  lemma ShortBoth(a: seq<byte>, b: seq<byte>, norm: seq<byte>)
    requires |a| <= TL.READ_MAX && |b| <= TL.READ_MAX
    ensures TL.ProbesFit([a, b], norm, 0, 2)
  {
    TL.ShortTitlesFit([a, b], norm, 0, 2);
  }

  lemma LongFirst(a: seq<byte>, b: seq<byte>, p: seq<byte>)
    requires |a| > TL.SCAN_MAX
    ensures !TL.ScanFits([a, b], p, 1)
  {
    assert [a, b][0] == a && TL.WordStartIds([a, b], p, 0) == [];
  }

  // With 257 bytes the binary search gives up too, and a title that is there is
  // not found.
  method LongerTitleHides() returns (ca: Archive, found: bool)
    ensures Accepted(ca) && ca.indexSize <= ca.index.size && TL.WellFormed(TitleIndex(ca))
    ensures TL.Titles(TitleIndex(ca)) == [LONGER, LAST] && TL.Sorted([LONGER, LAST]) && !found
  {
    hide Accepted, Less, TL.WellFormed, TL.WordStart, TL.Title;
    LastHasWord();
    ca := TwoTitles(LONGER, LAST);
    LongProbed(LONGER, LAST);
    var id;
    found, id := TL.Exact(TitleIndex(ca), LAST);
  }

  lemma LongProbed(a: seq<byte>, b: seq<byte>)
    requires |a| > TL.READ_MAX
    ensures !TL.ProbesFit([a, b], b, 0, 2)
  {
    LessIrreflexive(b);
    assert [a, b][1] == b && [a, b][0] == a;
    hide Less;
    assert !TL.ProbesFit([a, b], b, 0, 1);
  }
}
