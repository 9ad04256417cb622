/**
 From a built archive to an article on the device: the pack is opened, a title is
 looked up, and the article's bytes are read from the payload.
 */
module ArchiveServed {
  import opened Bytes
  import opened ArchiveFormat
  import opened ArchiveHost
  import opened ArchiveReader
  import opened Crc32
  import opened Options
  import opened PackBuilder
  import TL = TitleLookup

  // Lookup sees the titles that the parser returns.
  lemma TitlesAreItems(ca: Archive, items: seq<Item>)
    requires Accepted(ca) && ca.index.size == ca.indexSize && ca.count == |items|
    requires EntriesOk(Region(ca.index), ca.payloadSize, |items|)
    requires ItemsTo(Region(ca.index), ca.payloadSize, |items|) == items
    ensures TL.WellFormed(TitleIndex(ca))
    ensures forall i :: 0 <= i < |items| ==> TL.Titles(TitleIndex(ca))[i] == items[i].norm
  {
    hide ContentOk, IndexOk, EntryAt, TL.GoodEntry, TL.Title;
    TitlesReadable(ca);
    var x := Region(ca.index);
    forall i: nat | i < |items| ensures TL.Titles(TitleIndex(ca))[i] == items[i].norm {
      assert EntryOk(x, |x|, ca.payloadSize, i);
      assert ItemsTo(x, ca.payloadSize, |items|)[i] == ItemAt(x, i);
    }
  }

  // The titles of a list of articles.
  function TitlesOf(s: seq<Article>): (t: seq<seq<byte>>)
    ensures |t| == |s|
  {
    seq(|s|, i requires 0 <= i < |s| => s[i].norm)
  }

  lemma {:induction false} AdjacentSorted(t: seq<seq<byte>>, i: nat, j: nat)
    requires i < j < |t| && forall k :: 0 < k < |t| ==> Less(t[k - 1], t[k])
    ensures Less(t[i], t[j])
  {
    hide Less;
    assert Less(t[j - 1], t[j]);
    if i < j - 1 {
      AdjacentSorted(t, i, j - 1);
      LessTransitive(t[i], t[j - 1], t[j]);
    }
  }

  // The pack of a built archive opens, with the two files as its regions.
  lemma BuiltOpens(articles: seq<Article>, dict: seq<byte>, c: seq<byte>, x: seq<byte>)
    requires Built(articles, dict, c, x) && HEADER + |c| + |x| <= FILE_MAX
    ensures PackFile(c, x).Some? && PackOk(PackFile(c, x).value).Some?
    ensures var ca, s := OpenPack(PackFile(c, x).value).value, Sort(articles);
            && Accepted(ca) && Readable(ca.index) && Region(ca.content) == c && Region(ca.index) == x
            && ca.count == |s| && ca.payloadSize == |Payload(s)| + |dict| && ca.index.size == ca.indexSize
  {
    hide PackHeader, IndexOk, ContentOk, ArchiveOk, ItemsTo, EntriesOk, CrcValue, Sort, PackOk, Accepted, Holds, Payload, ItemsOf;
    BuiltHeaders(articles, dict, c, x);
    PackRoundTrip(c, x);
    OpenPackAccepted(PackFile(c, x).value);
    PackRegions(c, x);
  }

  lemma PackRegions(c: seq<byte>, x: seq<byte>)
    requires PackFile(c, x).Some?
    ensures var f := PackFile(c, x).value;
            |f| == HEADER + |c| + |x| && f[HEADER..HEADER + |c|] == c && f[HEADER + |c|..HEADER + |c| + |x|] == x
  {
    hide PackHeader, CrcValue;
    var h := PackHeader(|c|, |x|, CrcValue(c + x));
    assert PackFile(c, x).value == h + (c + x);
  }

  // What the device has of the articles: their titles in order, and for each
  // one its entry and its bytes; and the dictionary.
  ghost predicate Serves(ca: Archive, s: seq<Article>, dict: seq<byte>) {
    && Accepted(ca) && ca.count == |s| && ca.indexSize <= ca.index.size && TL.WellFormed(TitleIndex(ca))
    && TL.Titles(TitleIndex(ca)) == TitlesOf(s) && TL.Sorted(TitlesOf(s))
    && (forall i: nat :: i < |s| ==> HasArticle(ca, i, s[i]))
    && ca.payloadSize == |Payload(s)| + |dict| && ReadPayload(ca, |Payload(s)|, |dict|) == Some(dict)
  }

  predicate HasArticle(ca: Archive, id: nat, a: Article)
    requires Readable(ca.index)
  {
    GetArticle(ca, id).Some? &&
    var e := GetArticle(ca, id).value;
    && e.id == id && e.uncompLen == a.uncompLen && e.crc == a.crc
    && ReadPayload(ca, e.contentOff, e.compLen) == Some(a.comp)
  }

  lemma BuiltServes(articles: seq<Article>, dict: seq<byte>, c: seq<byte>, x: seq<byte>)
    requires Built(articles, dict, c, x) && HEADER + |c| + |x| <= FILE_MAX
    ensures PackFile(c, x).Some? && OpenPack(PackFile(c, x).value).Some?
    ensures Serves(OpenPack(PackFile(c, x).value).value, Sort(articles), dict)
  {
    hide PackFile, IndexOk, ContentOk, CrcValue, Sort, Accepted, Holds, Payload, EntriesOk, ItemsTo, TitlesOk, OpenPack, HasArticle,
         TL.WellFormed, TL.Titles, TL.Sorted, Rd32;
    BuiltOpens(articles, dict, c, x);
    var ca, s := OpenPack(PackFile(c, x).value).value, Sort(articles);
    TitlesAreItems(ca, ItemsOf(s));
    ItemTitles(ca, s, x);
    SortedTitles(articles, dict, c, x);
    forall i: nat | i < |s| ensures HasArticle(ca, i, s[i]) {
      ArticleServed(articles, dict, c, x, ca, i);
    }
    PayloadServed(ca, c, |Payload(s)|, dict);
  }

  lemma ItemTitles(ca: Archive, s: seq<Article>, x: seq<byte>)
    requires Readable(ca.index) && ca.indexSize <= ca.index.size && TL.WellFormed(TitleIndex(ca)) && ca.count == |s|
    requires forall i :: 0 <= i < |s| ==> TL.Titles(TitleIndex(ca))[i] == ItemsOf(s)[i].norm
    ensures TL.Titles(TitleIndex(ca)) == TitlesOf(s)
  {
    hide TL.WellFormed, Payload, TL.Title;
  }

  lemma SortedTitles(articles: seq<Article>, dict: seq<byte>, c: seq<byte>, x: seq<byte>)
    requires Built(articles, dict, c, x)
    ensures TL.Sorted(TitlesOf(Sort(articles)))
  {
    hide IndexOk, ContentOk, CrcValue, Sort, Holds, Payload, EntriesOk, Less, Rd32, HostHeaderOk;
    var s := Sort(articles);
    var t := TitlesOf(s);
    assert TitlesOk(ItemsOf(s));
    forall k | 0 < k < |t| ensures Less(t[k - 1], t[k]) {
      assert Less(ItemsOf(s)[k - 1].norm, ItemsOf(s)[k].norm);
    }
    forall i, j | 0 <= i < j < |t| ensures Less(t[i], t[j]) {
      AdjacentSorted(t, i, j);
    }
  }

  // Bytes held by the content file are what a payload read gives.
  lemma PayloadServed(ca: Archive, c: seq<byte>, off: nat, bytes: seq<byte>)
    requires Accepted(ca) && Region(ca.content) == c && off + |bytes| <= ca.payloadSize && Holds(c, HEADER + off, bytes)
    ensures ReadPayload(ca, off, |bytes|) == Some(bytes)
  {
    hide Accepted;
    PayloadReadInside(ca, off, |bytes|);
  }

  lemma ArticleServed(articles: seq<Article>, dict: seq<byte>, c: seq<byte>, x: seq<byte>, ca: Archive, i: nat)
    requires Built(articles, dict, c, x) && Accepted(ca) && Region(ca.content) == c && Region(ca.index) == x
    requires var s := Sort(articles); i < ca.count == |s| && ca.payloadSize == |Payload(s)| + |dict|
    ensures HasArticle(ca, i, Sort(articles)[i])
  {
    hide IndexOk, ContentOk, CrcValue, Sort, Accepted, Holds, Payload, TitlesOk, GetArticle, ReadPayload, DecodeEntry, Rd32,
         HostHeaderOk;
    var s := Sort(articles);
    ArticleInBounds(ca, i);
    EntryIsItem(x, ca.payloadSize, |s|, i);
    PayloadTiles(s, i);
    ArticleHeld(c, Payload(s), |Payload(s[..i])|, s[i].comp);
    PayloadServed(ca, c, |Payload(s[..i])|, s[i].comp);
    assert ItemsOf(s)[i].compLen == |s[i].comp|;
  }

  lemma EntryIsItem(x: seq<byte>, ps: nat, n: nat, i: nat)
    requires EntriesOk(x, ps, n) && i < n
    ensures HEADER + (i + 1) * ENTRY <= |x|
    ensures var e, it := EntryAt(x, i), ItemsTo(x, ps, n)[i];
            e.id == it.id && e.contentOff == it.contentOff && e.compLen == it.compLen && e.uncompLen == it.uncompLen && e.crc == it.crc
  {
    hide EntryAt;
    assert EntryOk(x, |x|, ps, i);
  }

  lemma ArticleHeld(c: seq<byte>, payload: seq<byte>, off: nat, comp: seq<byte>)
    requires Holds(c, HEADER, payload) && Holds(payload, off, comp)
    ensures Holds(c, HEADER + off, comp)
  {
    assert c[HEADER..HEADER + |payload|][off..off + |comp|] == c[HEADER + off..HEADER + off + |comp|];
  }

  lemma ServesTitles(ca: Archive, s: seq<Article>, dict: seq<byte>, norm: seq<byte>)
    requires Serves(ca, s, dict) && AllOk(s)
    ensures Readable(ca.index) && ca.indexSize <= ca.index.size && ca.count == |s| && TL.WellFormed(TitleIndex(ca))
    ensures TL.Titles(TitleIndex(ca)) == TitlesOf(s) && TL.Sorted(TitlesOf(s)) && TL.ProbesFit(TitlesOf(s), norm, 0, |s|)
  {
    hide ContentOk, IndexOk, TL.WellFormed, TL.Sorted, TL.Titles, Less, HasArticle, Payload, ReadPayload;
    TL.ShortTitlesFit(TitlesOf(s), norm, 0, |s|);
  }

  lemma ServesArticle(ca: Archive, s: seq<Article>, dict: seq<byte>, id: nat)
    requires Serves(ca, s, dict) && id < |s|
    ensures Readable(ca.index) && HasArticle(ca, id, s[id])
  {
    hide ContentOk, IndexOk, TL.WellFormed, TL.Sorted, TL.Titles, HasArticle, Payload, ReadPayload;
  }

  lemma OneTitle(s: seq<Article>, i: nat, j: nat)
    requires i < |s| && j < |s| && TL.Sorted(TitlesOf(s)) && s[i].norm == s[j].norm
    ensures i == j
  {
    LessIrreflexive(s[i].norm);
    hide Less;
    assert TitlesOf(s)[i] == TitlesOf(s)[j];
  }

  // Look a title up and read its article.
  method ServeTitle(ca: Archive, norm: seq<byte>, ghost s: seq<Article>, ghost dict: seq<byte>) returns (r: Option<seq<byte>>)
    requires Serves(ca, s, dict) && AllOk(s)
    ensures r.Some? <==> exists i :: 0 <= i < |s| && s[i].norm == norm
    ensures forall i :: 0 <= i < |s| && s[i].norm == norm ==> r == Some(s[i].comp)
  {
    hide Serves, TL.WellFormed, TL.Sorted, TL.ProbesFit, TL.Titles, GetArticle, ReadPayload, TitleIndex, ArticleOk;
    ServesTitles(ca, s, dict, norm);
    var found, id := TL.Exact(TitleIndex(ca), norm);
    if !found {
      forall i | 0 <= i < |s| ensures s[i].norm != norm {
        NormSize(s, i);
        assert TitlesOf(s)[i] == s[i].norm;
      }
      return None;
    }
    ServesArticle(ca, s, dict, id);
    var e := GetArticle(ca, id);
    r := ReadPayload(ca, e.value.contentOff, e.value.compLen);
    assert TitlesOf(s)[id] == s[id].norm;
    forall i | 0 <= i < |s| && s[i].norm == norm ensures i == id {
      OneTitle(s, i, id);
    }
  }

  lemma NormSize(s: seq<Article>, i: nat)
    requires AllOk(s) && i < |s|
    ensures 1 <= |s[i].norm| <= 255
  {}

  // End to end: a built archive is wrapped as a pack of less than 2 GiB and
  // opened. A title then gives the bytes of its article, or nothing if no
  // article has it.
  method ServeBuilt(f: seq<byte>, norm: seq<byte>, ghost articles: seq<Article>, ghost dict: seq<byte>,
                    ghost c: seq<byte>, ghost x: seq<byte>) returns (r: Option<seq<byte>>)
    requires AllOk(articles) && NoDuplicates(articles) && Built(articles, dict, c, x)
    requires HEADER + |c| + |x| <= FILE_MAX && Some(f) == PackFile(c, x)
    ensures r.Some? <==> exists i :: 0 <= i < |articles| && articles[i].norm == norm
    ensures forall i :: 0 <= i < |articles| && articles[i].norm == norm ==> r == Some(articles[i].comp)
  {
    hide Built, PackFile, OpenPack, Serves, Sort, AllOk, NoDuplicates;
    BuiltServes(articles, dict, c, x);
    ghost var s := Sort(articles);
    SortSorts(articles);
    SameArticlesOk(articles, s);
    SameArticles(articles, s);
    r := ServeTitle(OpenPack(f).value, norm, s, dict);
  }

  lemma SameArticles(a: seq<Article>, b: seq<Article>)
    requires multiset(a) == multiset(b)
    ensures forall i :: 0 <= i < |a| ==> exists j :: 0 <= j < |b| && b[j] == a[i]
    ensures forall j :: 0 <= j < |b| ==> exists i :: 0 <= i < |a| && a[i] == b[j]
  {
    forall i | 0 <= i < |a| ensures a[i] in b {
      assert a[i] in multiset(a);
    }
    forall j | 0 <= j < |b| ensures b[j] in a {
      assert b[j] in multiset(b);
    }
  }
}
