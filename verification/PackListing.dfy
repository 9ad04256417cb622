/**
 What the list of installed packs says: which files are packs, and where the
 fields of an item come from.
 */
module PackListing {
  import opened Alphabet
  import opened Bytes
  import opened ArchiveFormat
  import opened ArchiveReader
  import opened FileStore
  import opened Options

  const OTHERS := DIGITS + "-_"

  // ---- names ----

  predicate NameChar(c: char) { c in UPPER || c in LOWER || c in OTHERS }

  lemma OtherChars(c: char)
    ensures c in OTHERS <==> '0' <= c <= '9' || c == '-' || c == '_'
  {
    Digits(c);
  }

  lemma SafeChars(c: char)
    ensures SafeChar(c) <==> NameChar(c)
  {
    Letters(c);
    OtherChars(c);
  }

  // Both forms of letter i.
  predicate IsLetter(c: char, i: nat) { i < 26 && (c == UPPER[i] || c == LOWER[i]) }

  // The same letter in either case.
  ghost predicate SameLetter(a: char, b: char) { a == b || exists i: nat :: IsLetter(a, i) && IsLetter(b, i) }

  lemma FoldLetter(c: char, i: nat)
    requires i < 26
    ensures IsLetter(c, i) <==> FoldChar(c) as int == 97 + i
  {
    Place(i);
  }

  lemma FoldChanges(c: char)
    ensures FoldChar(c) != c ==> 97 <= FoldChar(c) as int < 123
  {}

  lemma LettersFold(a: char, b: char)
    ensures FoldChar(a) == FoldChar(b) <==> SameLetter(a, b)
  {
    hide FoldChar, IsLetter;
    if FoldChar(a) == FoldChar(b) && a != b {
      FoldChanges(a);
      FoldChanges(b);
      var i: nat := FoldChar(a) as int - 97;
      FoldLetter(a, i);
      FoldLetter(b, i);
    }
    forall i: nat | IsLetter(a, i) && IsLetter(b, i) ensures FoldChar(a) == FoldChar(b) {
      LetterPlace(a, i);
      FoldLetter(a, i);
      FoldLetter(b, i);
    }
  }

  lemma LetterPlace(c: char, i: nat)
    requires IsLetter(c, i)
    ensures i < 26
  {}

  // Two names are the same up to the case of letters.
  lemma NamesFold(a: string, b: string)
    ensures SameName(a, b) <==> |a| == |b| && forall i :: 0 <= i < |a| ==> SameLetter(a[i], b[i])
  {
    hide SameLetter, FoldChar;
    if |a| == |b| {
      forall i | 0 <= i < |a| ensures Fold(a)[i] == Fold(b)[i] <==> SameLetter(a[i], b[i]) {
        LettersFold(a[i], b[i]);
      }
      assert SameName(a, b) <==> forall i :: 0 <= i < |a| ==> Fold(a)[i] == Fold(b)[i];
    } else {
      assert |Fold(a)| != |Fold(b)|;
    }
  }

  // ---- one file ----

  // The file is a pack that shows as this item.
  ghost predicate Shows(f: File, it: Item) {
    && f.name == it.name + ".pwp" && 1 <= |it.name| <= 40 && (forall i :: 0 <= i < |it.name| ==> NameChar(it.name[i]))
    && !SameName(it.name, "pocketwiki") && !SameName(it.name, "starter")
    && OpenPack(f.data).Some? && it.articles == OpenPack(f.data).value.count && it.bytes == |f.data|
  }

  lemma ItemShows(f: File)
    ensures ListItem(f).Some? ==> Shows(f, ListItem(f).value)
    ensures forall it :: Shows(f, it) ==> ListItem(f) == Some(it)
  {
    hide SafeChar, Fold, PackOk;
    forall c ensures SafeChar(c) <==> NameChar(c) {
      SafeChars(c);
    }
    hide NameChar;
    PackSize(f.data);
    if |f.name| >= 4 && f.name[|f.name| - 4..] == ".pwp" {
      assert f.name == f.name[..|f.name| - 4] + ".pwp";
    }
    forall it | Shows(f, it) ensures ListItem(f) == Some(it) {
      assert f.name[..|f.name| - 4] == it.name && f.name[|f.name| - 4..] == ".pwp";
    }
  }

  lemma PackSize(d: seq<byte>)
    ensures PackOk(d).Some? ==> |d| < U32
  {}

  // ---- the directory ----

  // The packs among the files, in order.
  ghost function PacksOf(d: Dir): Dir {
    if |d| == 0 then []
    else
      var f := d[|d| - 1];
      PacksOf(d[..|d| - 1]) + if exists it :: Shows(f, it) then [f] else []
  }

  function ArticlesOf(packs: Dir): nat {
    if |packs| == 0 then 0
    else
      var data := packs[|packs| - 1].data;
      ArticlesOf(packs[..|packs| - 1]) + if OpenPack(data).Some? then OpenPack(data).value.count else 0
  }

  // The list has one item for each pack, in order, with the pack's own name,
  // count and length; there is none just when the articles do not fit 32 bits.
  lemma {:induction false} ScanShows(d: Dir)
    ensures Scan(d).Some? <==> ArticlesOf(PacksOf(d)) < U32
    ensures Scan(d).Some? ==> ListsAll(Scan(d).value, PacksOf(d))
  {
    hide ListItem, Shows, ArticlesOf, ListsAll;
    if |d| == 0 {
      NothingListed();
    } else {
      var front, f := d[..|d| - 1], d[|d| - 1];
      ScanShows(front);
      ItemShows(f);
      var packs, it := PacksOf(front), ListItem(f);
      assert packs + [] == packs;
      if it.Some? {
        OneMore(packs, f, it.value);
        if Scan(front).Some? {
          ListsSum(Scan(front).value, packs);
          ListsMore(Scan(front).value, packs, f, it.value);
        }
      }
    }
  }

  ghost predicate ListsAll(l: Listing, packs: Dir) {
    && |l.items| == |packs| && l.articles == ArticlesOf(packs)
    && forall i :: 0 <= i < |packs| ==> Shows(packs[i], l.items[i])
  }

  lemma ListsSum(l: Listing, packs: Dir)
    requires ListsAll(l, packs)
    ensures l.articles == ArticlesOf(packs)
  {}

  lemma NothingListed()
    ensures ListsAll(Listing([], 0), []) && ArticlesOf([]) == 0
  {}

  lemma OneMore(packs: Dir, f: File, it: Item)
    requires Shows(f, it)
    ensures ArticlesOf(packs + [f]) == ArticlesOf(packs) + it.articles
  {
    hide OpenPack;
    assert (packs + [f])[..|packs|] == packs;
  }

  lemma ListsMore(l: Listing, packs: Dir, f: File, it: Item)
    requires ListsAll(l, packs) && Shows(f, it)
    ensures ListsAll(Listing(l.items + [it], l.articles + it.articles), packs + [f])
  {
    hide Shows, ArticlesOf;
    OneMore(packs, f, it);
  }
}
