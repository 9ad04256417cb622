/**
 Building an archive: duplicate check, sorting, dense ids, payload offsets, the
 dictionary at the tail, and the portable pack. Whatever it writes, the host
 parser and the firmware's validators accept, and they find in it exactly what
 was put in. Compression is a parameter: each article comes with its compressed
 bytes.
 */
module PackBuilder {
  import opened Bytes
  import opened Crc32
  import opened ArchiveFormat
  import opened ArchiveHost
  import opened Options
  import opened TitleNormalize

  datatype Article = Article(norm: seq<byte>, disp: seq<byte>, comp: seq<byte>, uncompLen: nat, crc: nat)

  // What loading and compressing an article guarantees.
  predicate ArticleOk(a: Article) {
    1 <= |a.norm| <= 255 && Normal(a.norm) == a.norm && 1 <= |a.disp| <= 511
    && |a.comp| > 0 && 0 < a.uncompLen < U32 && a.crc < U32
  }

  predicate AllOk(articles: seq<Article>) { forall i :: 0 <= i < |articles| ==> ArticleOk(articles[i]) }

  // ---- sorting by title ----

  function Insert(a: Article, s: seq<Article>): seq<Article> {
    if |s| == 0 || !Less(s[0].norm, a.norm) then [a] + s else [s[0]] + Insert(a, s[1..])
  }

  function Sort(s: seq<Article>): seq<Article> {
    if |s| == 0 then [] else Insert(s[0], Sort(s[1..]))
  }

  ghost predicate NoDuplicates(s: seq<Article>) {
    forall i, j :: 0 <= i < j < |s| ==> s[i].norm != s[j].norm
  }

  ghost predicate StrictlySorted(s: seq<Article>) {
    forall i :: 0 < i < |s| ==> Less(s[i - 1].norm, s[i].norm)
  }

  lemma {:induction false} InsertSorted(a: Article, s: seq<Article>)
    requires StrictlySorted(s) && forall i :: 0 <= i < |s| ==> s[i].norm != a.norm
    ensures StrictlySorted(Insert(a, s)) && multiset(Insert(a, s)) == multiset(s) + multiset{a}
    ensures |Insert(a, s)| > 0 && Insert(a, s)[0] in [a] + s[..if |s| == 0 then 0 else 1]
  {
    hide Less;
    if |s| > 0 {
      LessTotal(s[0].norm, a.norm);
      assert s == [s[0]] + s[1..];
      if Less(s[0].norm, a.norm) {
        InsertSorted(a, s[1..]);
      }
    }
  }

  lemma {:induction false} SortSorts(s: seq<Article>)
    requires NoDuplicates(s)
    ensures StrictlySorted(Sort(s)) && multiset(Sort(s)) == multiset(s)
  {
    hide Less;
    if |s| > 0 {
      var t := Sort(s[1..]);
      SortSorts(s[1..]);
      assert s == [s[0]] + s[1..];
      forall i | 0 <= i < |t| ensures t[i].norm != s[0].norm {
        assert t[i] in multiset(t);
        assert t[i] in s[1..];
      }
      InsertSorted(s[0], t);
    }
  }

  // ---- layout ----

  // The compressed articles one after the other.
  function Payload(s: seq<Article>): seq<byte> {
    if |s| == 0 then [] else Payload(s[..|s| - 1]) + s[|s| - 1].comp
  }

  // Article i of the sorted list becomes entry i, right after its predecessors.
  function ItemsOf(s: seq<Article>): (items: seq<Item>)
    ensures |items| == |s|
  {
    seq(|s|, i requires 0 <= i < |s| =>
      Item(i, |Payload(s[..i])|, |s[i].comp|, s[i].uncompLen, s[i].crc, s[i].norm, s[i].disp))
  }

  // The payload is tiled: the articles without gap or overlap, each where its
  // entry says, then the dictionary.
  lemma {:induction false} PayloadTiles(s: seq<Article>, i: nat)
    requires i < |s|
    ensures Holds(Payload(s), |Payload(s[..i])|, s[i].comp)
    ensures |Payload(s[..i + 1])| == |Payload(s[..i])| + |s[i].comp| <= |Payload(s)|
  {
    hide Payload, Holds;
    var n := |s| - 1;
    PayloadLast(s);
    if i < n {
      PayloadTiles(s[..n], i);
      assert s[..n][..i] == s[..i] && s[..n][..i + 1] == s[..i + 1];
      HoldsLonger(Payload(s[..n]), s[n].comp, |Payload(s[..i])|, s[i].comp);
    } else {
      assert s[..i + 1] == s;
    }
  }

  lemma PayloadLast(s: seq<Article>)
    requires |s| > 0
    ensures var front, last := s[..|s| - 1], s[|s| - 1].comp;
            Payload(s) == Payload(front) + last && Holds(Payload(s), |Payload(front)|, last)
  {}

  // ---- what the validators make of a written index ----

  predicate BoundedItems(items: seq<Item>, payloadSize: nat) {
    forall i :: 0 <= i < |items| ==>
      items[i].id == i && items[i].compLen > 0 && items[i].uncompLen > 0
      && items[i].contentOff + items[i].compLen <= payloadSize
      && |items[i].norm| > 0 && |items[i].disp| > 0
  }

  ghost predicate GoodItems(items: seq<Item>, payloadSize: nat) { BoundedItems(items, payloadSize) && TitlesOk(items) }

  // Reading a written index gives back the items, and the firmware accepts it,
  // whatever the order and length of the titles.
  lemma WrittenIndexParses(x: seq<byte>, items: seq<Item>, payloadSize: nat)
    requires IndexHolds(x, items) && BoundedItems(items, payloadSize)
    ensures HostHeaderOk(x) && Rd32(x, 8) == |items|
    ensures EntriesOk(x, payloadSize, |items|) && ItemsTo(x, payloadSize, |items|) == items
    ensures IndexOk(x, payloadSize) == Some(IndexInfo(|items|, HEADER + |items| * ENTRY, |x|))
  {
    hide Rd32, EntryAt, IndexHeader, CrcValue, TitlesOk;
    IndexHeaderFields(x, |items|, HEADER + |items| * ENTRY, |x|, CrcValue(x[HEADER..]));
    assert x[HEADER..|x|] == x[HEADER..];
    forall i: nat | i < |items|
      ensures HEADER + (i + 1) * ENTRY <= |x| && EntryOk(x, |x|, payloadSize, i) && ItemAt(x, i) == items[i]
    {
      assert Describes(x, EntryAt(x, i), items[i]);
    }
    hide EntryOk;
    assert EntriesOk(x, payloadSize, |items|);
  }

  lemma SortedItemsGood(s: seq<Article>, payloadSize: nat)
    requires AllOk(s) && StrictlySorted(s) && |Payload(s)| <= payloadSize
    ensures GoodItems(ItemsOf(s), payloadSize)
  {
    hide Less, Normal, Payload;
    forall i | 0 <= i < |s| ensures |Payload(s[..i])| + |s[i].comp| <= payloadSize {
      PayloadTiles(s, i);
    }
  }

  // ---- build ----

  method HasDuplicate(articles: seq<Article>) returns (dup: bool)
    ensures dup <==> !NoDuplicates(articles)
  {
    var seen: set<seq<byte>> := {};
    for i := 0 to |articles|
      invariant NoDuplicates(articles[..i])
      invariant seen == set k | 0 <= k < i :: articles[k].norm
    {
      if articles[i].norm in seen {
        var k :| 0 <= k < i && articles[k].norm == articles[i].norm;
        return true;
      }
      seen := seen + {articles[i].norm};
    }
    assert articles[..|articles|] == articles;
    dup := false;
  }

  // What a built archive is: both files are accepted by both sides, the parser
  // returns the articles' entries, and the content holds the bytes they name.
  ghost predicate Built(articles: seq<Article>, dict: seq<byte>, c: seq<byte>, x: seq<byte>) {
    var s := Sort(articles);
    var payload := Payload(s);
    var ps := |payload| + |dict|;
    && ContentOk(c) == Some(ContentInfo(ps, if dict == [] then 0 else |payload|, |dict|))
    && |c| == HEADER + ps && Holds(c, HEADER, payload) && Holds(c, HEADER + |payload|, dict)
    && ArchiveOk(c, x) && Rd32(x, 8) == |s| && EntriesOk(x, ps, |s|) && ItemsTo(x, ps, |s|) == ItemsOf(s)
    && IndexOk(x, ps) == Some(IndexInfo(|s|, HEADER + |s| * ENTRY, |x|))
  }

  // pack_content_header
  function PackContentHeader(payloadSize: nat, dictOff: nat, dictLen: nat): Option<seq<byte>> {
    if payloadSize >= U32 || dictLen >= U32 then None
    else if dictLen > 0 then
      if dictOff + dictLen != payloadSize then None else Some(ContentHeader(payloadSize, dictOff, dictLen))
    else Some(ContentHeader(payloadSize, 0, 0))
  }

  // Pass 2: the entries and the payload, article by article.
  method LayOut(s: seq<Article>) returns (items: seq<Item>, payload: seq<byte>)
    ensures items == ItemsOf(s) && payload == Payload(s)
  {
    items, payload := [], [];
    for i := 0 to |s|
      invariant payload == Payload(s[..i]) && items == ItemsOf(s)[..i]
    {
      var a := s[i];
      items := items + [Item(i, |payload|, |a.comp|, a.uncompLen, a.crc, a.norm, a.disp)];
      payload := payload + a.comp;
      assert s[..i + 1][..i] == s[..i];
      assert ItemsOf(s)[..i + 1] == ItemsOf(s)[..i] + [ItemsOf(s)[i]];
    }
    assert s[..|s|] == s && ItemsOf(s)[..|s|] == ItemsOf(s);
  }

  // The u32 and u16 limits of the two files.
  predicate WithinLimits(articles: seq<Article>, dict: seq<byte>) {
    |Payload(Sort(articles))| + |dict| < U32 && IndexFits(ItemsOf(Sort(articles)))
  }

  method Build(articles: seq<Article>, dict: seq<byte>) returns (r: Option<(seq<byte>, seq<byte>)>)
    requires AllOk(articles) && |dict| <= MAX_DICT
    ensures r.Some? ==> |articles| > 0 && NoDuplicates(articles) && Built(articles, dict, r.value.0, r.value.1)
    ensures |articles| > 0 && NoDuplicates(articles) && WithinLimits(articles, dict) ==> r.Some?
  {
    hide Sort, ContentHeader, IndexFits, AllOk, Payload, ItemsOf, NoDuplicates, IndexHolds, Built;
    if |articles| == 0 {
      return None;
    }
    var dup := HasDuplicate(articles);
    if dup {
      return None;
    }
    var s := Sort(articles);
    var items, payload := LayOut(s);
    var dictOff := if |dict| > 0 then |payload| else 0;
    var all := payload + dict;
    var header := PackContentHeader(|all|, dictOff, |dict|);
    if header.None? {
      return None;
    }
    var content := header.value + all;
    var index := PackIndex(items);
    if index.None? {
      return None;
    }
    IsBuilt(articles, dict, content, index.value);
    r := Some((content, index.value));
  }

  lemma IsBuilt(articles: seq<Article>, dict: seq<byte>, c: seq<byte>, x: seq<byte>)
    requires AllOk(articles) && NoDuplicates(articles) && |dict| <= MAX_DICT
    requires var payload := Payload(Sort(articles));
             |payload| + |dict| < U32
             && c == ContentHeader(|payload| + |dict|, if dict == [] then 0 else |payload|, |dict|) + (payload + dict)
    requires IndexHolds(x, ItemsOf(Sort(articles)))
    ensures Built(articles, dict, c, x)
  {
    hide Less, Normal, Sort, ContentHeader, ContentOk, IndexOk, AllOk, StrictlySorted, Payload, ItemsOf,
         NoDuplicates, BoundedItems, TitlesOk, IndexHolds, Holds, Rd32, CrcValue;
    var s := Sort(articles);
    SortSorts(articles);
    SameArticlesOk(articles, s);
    WrittenContent(c, Payload(s), dict);
    var ps := |Payload(s)| + |dict|;
    SortedItemsGood(s, ps);
    WrittenIndexParses(x, ItemsOf(s), ps);
  }

  lemma SameArticlesOk(a: seq<Article>, b: seq<Article>)
    requires AllOk(a) && multiset(a) == multiset(b)
    ensures AllOk(b)
  {
    hide ArticleOk;
    forall i | 0 <= i < |b| ensures ArticleOk(b[i]) {
      assert b[i] in multiset(b);
      assert b[i] in a;
    }
  }

  lemma WrittenContent(c: seq<byte>, payload: seq<byte>, dict: seq<byte>)
    requires |payload| + |dict| < U32 && |dict| <= MAX_DICT
    requires c == ContentHeader(|payload| + |dict|, if dict == [] then 0 else |payload|, |dict|) + (payload + dict)
    ensures ContentOk(c) == Some(ContentInfo(|payload| + |dict|, if dict == [] then 0 else |payload|, |dict|))
    ensures |c| == HEADER + |payload| + |dict| && Holds(c, HEADER, payload) && Holds(c, HEADER + |payload|, dict)
  {
    hide ContentHeader, Rd32;
    var ps, doff := |payload| + |dict|, if dict == [] then 0 else |payload|;
    var h := ContentHeader(ps, doff, |dict|);
    assert c[..HEADER] == h;
    ContentHeaderFields(c, ps, doff, |dict|);
    assert c[HEADER..HEADER + |payload|] == payload;
    assert c[HEADER + |payload|..HEADER + |payload| + |dict|] == dict;
  }

  // ---- the portable pack ----

  // pack_pack_file
  function PackFile(c: seq<byte>, x: seq<byte>): Option<seq<byte>> {
    if |c| < 5 || c[4] != VERSION || |c| >= U32 || |x| >= U32 then None
    else Some(PackHeader(|c|, |x|, CrcValue(c + x)) + (c + x))
  }

  // unpack_pack_file
  function UnpackFile(d: seq<byte>): Option<(seq<byte>, seq<byte>)> {
    if |d| < HEADER || Rd32(d, 0) != PACK_MAGIC || d[4] != VERSION then None
    else
      var cl, xl := Rd32(d, 8), Rd32(d, 12);
      if cl < HEADER || xl < HEADER || HEADER + cl + xl != |d| || CrcValue(d[HEADER..]) != Rd32(d, 16) then None
      else Some((d[HEADER..HEADER + cl], d[HEADER + cl..HEADER + cl + xl]))
  }

  // Unwrapping undoes wrapping, and the firmware finds in the pack what it
  // would find in the two files.
  lemma PackRoundTrip(c: seq<byte>, x: seq<byte>)
    requires PackFile(c, x).Some?
    ensures var d, whole := PackFile(c, x).value, |c| >= HEADER && |x| >= HEADER;
            && UnpackFile(d) == (if whole then Some((c, x)) else None)
            && (|d| <= FILE_MAX ==>
                  PackOk(d) == if !whole || ContentOk(c).None? then None
                               else var ps := ContentOk(c).value.payloadSize;
                                    if IndexOk(x, ps).None? then None
                                    else Some(PackInfo(|c|, |x|, ContentOk(c).value, IndexOk(x, ps).value)))
  {
    hide PackHeader, Rd32, CrcValue, ContentOk, IndexOk;
    var h := PackHeader(|c|, |x|, CrcValue(c + x));
    var d := PackFile(c, x).value;
    assert d[..HEADER] == h && d[HEADER..] == c + x;
    PackHeaderFields(d, |c|, |x|, CrcValue(c + x));
    assert d[HEADER..HEADER + |c|] == c && d[HEADER + |c|..] == x && d[HEADER + |c|..HEADER + |c| + |x|] == x;
  }

  // End to end: a built archive, wrapped as a pack of less than 2 GiB, is a
  // pack the firmware accepts, with one entry for each article.
  lemma BuiltPackAccepted(articles: seq<Article>, dict: seq<byte>, c: seq<byte>, x: seq<byte>)
    requires Built(articles, dict, c, x) && HEADER + |c| + |x| <= FILE_MAX
    ensures PackFile(c, x).Some?
    ensures PackOk(PackFile(c, x).value).Some?
    ensures PackOk(PackFile(c, x).value).value.index.count == |Sort(articles)|
  {
    hide PackHeader, IndexOk, ArchiveOk, ItemsTo, EntriesOk, CrcValue, Sort;
    assert c[4] == VERSION && |x| >= HEADER by { BuiltHeaders(articles, dict, c, x); }
    PackRoundTrip(c, x);
  }

  lemma BuiltHeaders(articles: seq<Article>, dict: seq<byte>, c: seq<byte>, x: seq<byte>)
    requires Built(articles, dict, c, x)
    ensures |c| >= HEADER && c[4] == VERSION && |x| >= HEADER
  {
    hide Rd32, CrcValue, Sort;
  }
}
