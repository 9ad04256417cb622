/**
 The pack directory: a FAT directory in enumeration order, whose names match
 without regard to case, and the scan that lists the installed packs.
 */
module FileStore {
  import opened Bytes
  import opened ArchiveFormat
  import opened Options

  datatype File = File(name: string, data: seq<byte>)
  type Dir = seq<File>

  const BUILTIN := "pocketwiki"
  const TEMP := ".upload.tmp"
  const BACKUP := ".replace.bak"
  const SUFFIX := ".pwp"
  const NAME_MAX := 40

  // ---- names ----

  function FoldChar(c: char): char { if 'A' <= c <= 'Z' then (c as int + 32) as char else c }

  function Fold(s: string): (r: string)
    ensures |r| == |s|
  {
    seq(|s|, i requires 0 <= i < |s| => FoldChar(s[i]))
  }

  // strcasecmp == 0, and FAT's notion of the same name.
  predicate SameName(a: string, b: string) { Fold(a) == Fold(b) }

  function PathFor(name: string): string { name + SUFFIX }

  predicate SafeChar(c: char) {
    'a' <= c <= 'z' || 'A' <= c <= 'Z' || '0' <= c <= '9' || c == '-' || c == '_'
  }

  // pack_store_safe_name
  predicate SafeName(name: string) {
    1 <= |name| <= NAME_MAX && !SameName(name, "starter") && forall i :: 0 <= i < |name| ==> SafeChar(name[i])
  }

  lemma FoldConcat(a: string, b: string)
    ensures Fold(a + b) == Fold(a) + Fold(b)
  {}

  lemma SamePath(a: string, b: string)
    ensures SameName(PathFor(a), PathFor(b)) <==> SameName(a, b)
  {
    FoldConcat(a, SUFFIX);
    FoldConcat(b, SUFFIX);
    if Fold(a) + Fold(SUFFIX) == Fold(b) + Fold(SUFFIX) {
      assert |a| == |b|;
      assert (Fold(a) + Fold(SUFFIX))[..|a|] == Fold(a) && (Fold(b) + Fold(SUFFIX))[..|b|] == Fold(b);
    }
  }

  // A pack's path is never one of the working files.
  lemma PackPathIsNotWork(a: string)
    ensures !SameName(PathFor(a), TEMP) && !SameName(PathFor(a), BACKUP)
    ensures !SameName(TEMP, PathFor(a)) && !SameName(BACKUP, PathFor(a))
    ensures !SameName(TEMP, BACKUP) && !SameName(BACKUP, TEMP)
  {
    var f, n := Fold(PathFor(a)), |PathFor(a)|;
    assert f[n - 1] == 'p';
    assert Fold(TEMP)[|TEMP| - 2] == 'm' && Fold(BACKUP)[|BACKUP| - 1] == 'k' && f[n - 2] == 'w';
    assert |TEMP| == 11 && |BACKUP| == 12;
  }

  // ---- the directory ----

  function Lookup(d: Dir, name: string): Option<seq<byte>> {
    if |d| == 0 then None
    else if SameName(d[|d| - 1].name, name) then Some(d[|d| - 1].data) else Lookup(d[..|d| - 1], name)
  }

  function Delete(d: Dir, name: string): Dir {
    if |d| == 0 then []
    else Delete(d[..|d| - 1], name) + if SameName(d[|d| - 1].name, name) then [] else [d[|d| - 1]]
  }

  // Create or replace.
  function Put(d: Dir, name: string, data: seq<byte>): Dir { Delete(d, name) + [File(name, data)] }

  lemma {:induction false} LookupDelete(d: Dir, name: string, other: string)
    ensures Lookup(Delete(d, name), other) == if SameName(name, other) then None else Lookup(d, other)
  {
    hide SameName;
    if |d| > 0 {
      LookupDelete(d[..|d| - 1], name, other);
      LookupAdd(Delete(d[..|d| - 1], name), d[|d| - 1], other);
      SameNameLaws(d[|d| - 1].name, name, other);
      SameNameLaws(name, other, d[|d| - 1].name);
      SameNameLaws(other, d[|d| - 1].name, name);
      assert Delete(d[..|d| - 1], name) + [] == Delete(d[..|d| - 1], name);
    }
  }

  // Another file stays as it is.
  lemma {:induction false} DeleteKeeps(d: Dir, name: string, f: File)
    ensures f in d && !SameName(f.name, name) ==> f in Delete(d, name)
  {
    hide SameName;
    if |d| > 0 {
      DeleteKeeps(d[..|d| - 1], name, f);
      assert f in d ==> f in d[..|d| - 1] || f == d[|d| - 1];
    }
  }

  lemma SameNameLaws(a: string, b: string, c: string)
    ensures SameName(a, b) == SameName(b, a) && SameName(a, a) && (SameName(a, b) ==> SameName(a, c) == SameName(b, c))
  {}

  lemma LookupAdd(d: Dir, f: File, other: string)
    ensures Lookup(d + [f], other) == if SameName(f.name, other) then Some(f.data) else Lookup(d, other)
  {
    assert (d + [f])[..|d|] == d;
  }

  lemma LookupPut(d: Dir, name: string, data: seq<byte>, other: string)
    ensures Lookup(Put(d, name, data), other) == if SameName(name, other) then Some(data) else Lookup(d, other)
  {
    hide SameName;
    LookupDelete(d, name, other);
    LookupAdd(Delete(d, name), File(name, data), other);
  }

  lemma LookupSame(d: Dir, a: string, b: string)
    requires SameName(a, b)
    ensures Lookup(d, a) == Lookup(d, b)
  {
    if |d| > 0 {
      LookupSame(d[..|d| - 1], a, b);
    }
  }

  // ---- listing ----

  datatype Item = Item(name: string, articles: nat, bytes: nat)
  datatype Listing = Listing(items: seq<Item>, articles: nat)

  // What the scan makes of one directory entry.
  function ListItem(f: File): Option<Item> {
    var n := |f.name|;
    if n < 5 || f.name[n - 4..] != SUFFIX || n - 4 > NAME_MAX then None
    else
      var name := f.name[..n - 4];
      if SameName(name, BUILTIN) || !SafeName(name) then None
      else if |f.data| >= U32 || PackOk(f.data).None? then None
      else Some(Item(name, PackOk(f.data).value.index.count, |f.data|))
  }

  // The installed packs in directory order, or nothing if their articles
  // cannot be counted in 32 bits.
  function Scan(d: Dir): Option<Listing> {
    if |d| == 0 then Some(Listing([], 0))
    else
      var l, it := Scan(d[..|d| - 1]), ListItem(d[|d| - 1]);
      if l.None? || it.None? then l
      else if l.value.articles + it.value.articles >= U32 then None
      else Some(Listing(l.value.items + [it.value], l.value.articles + it.value.articles))
  }

  // Files that are not packs do not show in the scan.
  lemma NotListed(name: string, f: File)
    requires SameName(f.name, name) && (name == TEMP || name == BACKUP)
    ensures ListItem(f).None?
  {
    if |f.name| >= 5 && f.name[|f.name| - 4..] == SUFFIX {
      assert f.name == PathFor(f.name[..|f.name| - 4]);
      PackPathIsNotWork(f.name[..|f.name| - 4]);
    }
  }

  lemma {:induction false} ScanDelete(d: Dir, name: string)
    requires name == TEMP || name == BACKUP
    ensures Scan(Delete(d, name)) == Scan(d)
  {
    hide SameName, ListItem;
    if |d| > 0 {
      var f := d[|d| - 1];
      var rest := Delete(d[..|d| - 1], name);
      ScanDelete(d[..|d| - 1], name);
      if SameName(f.name, name) {
        NotListed(name, f);
        assert rest + [] == rest;
      } else {
        assert (rest + [f])[..|rest|] == rest;
      }
    }
  }

  lemma ScanPut(d: Dir, name: string, data: seq<byte>)
    requires name == TEMP || name == BACKUP
    ensures Scan(Put(d, name, data)) == Scan(d)
  {
    ScanDelete(d, name);
    SameNameLaws(name, name, name);
    NotListed(name, File(name, data));
    var rest := Delete(d, name);
    assert Put(d, name, data)[..|rest|] == rest;
    hide SameName, ListItem, Delete;
  }

  lemma ScanStep(d: Dir, n: nat)
    requires n < |d|
    ensures var l, it := Scan(d[..n]), ListItem(d[n]);
            Scan(d[..n + 1]) ==
            if l.None? || it.None? then l
            else if l.value.articles + it.value.articles >= U32 then None
            else Some(Listing(l.value.items + [it.value], l.value.articles + it.value.articles))
  {
    hide ListItem;
    assert d[..n + 1][..n] == d[..n];
  }

  // A file that makes an item has it in the list.
  lemma {:induction false} ScanHas(d: Dir, f: File)
    requires f in d && ListItem(f).Some? && Scan(d).Some?
    ensures ListItem(f).value in Scan(d).value.items
  {
    hide ListItem;
    if f != d[|d| - 1] {
      assert f in d[..|d| - 1];
      ScanHas(d[..|d| - 1], f);
    }
  }

  lemma {:induction false} ScanFails(d: Dir, n: nat)
    requires n <= |d| && Scan(d[..n]).None?
    ensures Scan(d).None?
    decreases |d| - n
  {
    hide ListItem, Scan;
    if n < |d| {
      ScanStep(d, n);
      ScanFails(d, n + 1);
    } else {
      assert d[..n] == d;
    }
  }
}
