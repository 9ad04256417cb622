/**
 The catalogue file the publishing tool writes (sorted keys, two spaces of
 indent), and why the device's reader undoes it.
 */
module CatalogPrinter {
  import opened Bytes
  import opened CatalogIndex
  import opened CatalogText
  import opened CatalogFind
  import opened Options

  datatype PackInfo = PackInfo(id: string, name: string, version: nat, description: string, articles: nat, bytes: nat,
                               sha256: string, url: string, license: string, collection: Option<string>)

  datatype Release = Release(version: nat, generated: string, packs: seq<PackInfo>, collections: Option<seq<Tok>>)

  // ---- strings and numbers ----

  // Characters that are written as themselves or with a short escape.
  predicate Short(c: char) {
    ' ' <= c <= '~' || c == '\n' || c == '\t' || c == '\r' || c == BACKSPACE || c == FORM_FEED
  }

  function HexDigit(n: nat): char
    requires n < 16
  {
    if n < 10 then (n + '0' as int) as char else (n - 10 + 'a' as int) as char
  }

  // A numbered escape of a 16-bit unit.
  function Unit(n: nat): seq<Piece>
    requires n < 0x1_0000
  {
    [Esc('u'), Raw(HexDigit(n / 0x1000)), Raw(HexDigit(n / 0x100 % 16)), Raw(HexDigit(n / 16 % 16)), Raw(HexDigit(n % 16))]
  }

  // A character outside the basic plane takes two units.
  function Numbered(c: char): seq<Piece> {
    var n := c as int;
    if n < 0x1_0000 then Unit(n) else Unit(0xD800 + (n - 0x1_0000) / 0x400) + Unit(0xDC00 + (n - 0x1_0000) % 0x400)
  }

  function Escaped(c: char): seq<Piece> {
    if c == '"' || c == '\\' then [Esc(c)]
    else if c == '\n' then [Esc('n')]
    else if c == '\t' then [Esc('t')]
    else if c == '\r' then [Esc('r')]
    else if c == BACKSPACE then [Esc('b')]
    else if c == FORM_FEED then [Esc('f')]
    else if ' ' <= c <= '~' then [Raw(c)]
    else Numbered(c)
  }

  predicate Writable(s: string) { forall i :: 0 <= i < |s| ==> Short(s[i]) }

  function Pieces(s: string): seq<Piece> {
    if |s| == 0 then [] else Pieces(s[..|s| - 1]) + Escaped(s[|s| - 1])
  }

  // What the reader keeps of a printed string.
  function Kept(s: string): string { Plain(Pieces(s)) }

  lemma CharKept(c: char)
    ensures PiecesOk(Escaped(c))
    ensures if Short(c) then Plain(Escaped(c)) == [c] else |Plain(Escaped(c))| > 1
  {}

  // A string comes back as it was just when none of its characters needs a
  // numbered escape; with one, it comes back longer.
  lemma {:induction false} StringRoundTrip(s: string)
    ensures PiecesOk(Pieces(s)) && |Kept(s)| >= |s|
    ensures Writable(s) <==> Kept(s) == s
    ensures !Writable(s) <==> |Kept(s)| > |s|
  {
    hide PieceOk, CharOf, Escaped, Short;
    if |s| > 0 {
      var front, c := s[..|s| - 1], s[|s| - 1];
      StringRoundTrip(front);
      CharKept(c);
      assert s == front + [c];
      assert Kept(s) == Kept(front) + Plain(Escaped(c));
    }
  }

  function Decimal(n: nat): string {
    if n < 10 then [(n + '0' as int) as char] else Decimal(n / 10) + [(n % 10 + '0' as int) as char]
  }

  lemma {:induction false} DecimalRoundTrip(n: nat)
    ensures Digits(Decimal(n)) && Value(Decimal(n)) == n
  {
    if n < 10 {
      assert Decimal(n)[..0] == [];
    } else {
      DecimalRoundTrip(n / 10);
      assert Decimal(n)[..|Decimal(n)| - 1] == Decimal(n / 10);
    }
  }

  // ---- the file ----

  function Text(s: string): Scalar { Str(Pieces(s)) }

  function Number(n: nat): Scalar { Num(false, Decimal(n)) }

  function Keyed(indent: string, key: string): Key { Key("\n" + indent, Pieces(key), "", " ") }

  function PackField(key: string, value: Scalar): Field { Field(Keyed("      ", key), value, "") }

  // The last member of an object is followed by a line break.
  function Ended(f: Field, end: string): Field { f.(end := end) }

  function PackFields(p: PackInfo): seq<Field> {
    [PackField("articles", Number(p.articles)), PackField("bytes", Number(p.bytes))]
    + (if p.collection.Some? then [PackField("collection", Text(p.collection.value))] else [])
    + [PackField("description", Text(p.description)), PackField("id", Text(p.id)), PackField("license", Text(p.license)),
       PackField("name", Text(p.name)), PackField("sha256", Text(p.sha256)), PackField("url", Text(p.url)),
       Ended(PackField("version", Number(p.version)), "\n    ")]
  }

  function PrintPack(p: PackInfo, last: bool): PackObject {
    PackObject("\n    ", "", PackFields(p), if last then "\n  " else "")
  }

  function PrintPacks(ps: seq<PackInfo>): (r: seq<PackObject>)
    ensures |r| == |ps|
  {
    seq(|ps|, i requires 0 <= i < |ps| => PrintPack(ps[i], i == |ps| - 1))
  }

  function VersionMember(r: Release): Member { Plainly(Field(Keyed("  ", "catalog_version"), Number(r.version), "")) }

  function StampMember(r: Release): Member { Plainly(Field(Keyed("  ", "generated_at"), Text(r.generated), "")) }

  function BeforePacks(r: Release): seq<Member> {
    [VersionMember(r)]
    + (if r.collections.Some? then [Other(Keyed("  ", "collections"), r.collections.value, "")] else [])
    + [StampMember(r)]
  }

  function Print(r: Release): Catalogue { PrintAs(r, 1) }

  // The same file with another schema number.
  function PrintAs(r: Release, schema: nat): Catalogue {
    Catalogue("", "",
              BeforePacks(r) + [PackList(Keyed("  ", "packs"), "", PrintPacks(r.packs), "")]
              + [Plainly(Field(Keyed("  ", "schema"), Number(schema), "\n"))],
              "\n")
  }

  // ---- what the device can hold ----

  // The device has room for every field and can install from the entry.
  predicate Installable(p: PackInfo) {
    && p.id != "" && |Kept(p.id)| < ID_CAP && |Kept(p.name)| < NAME_CAP
    && p.url != "" && |Kept(p.url)| < URL_CAP && p.sha256 != "" && |Kept(p.sha256)| < SHA_CAP
    && p.bytes <= INT64_MAX && p.articles <= INT64_MAX && p.version <= INT64_MAX
  }

  predicate ReleaseOk(r: Release) { r.collections.Some? ==> Nested(r.collections.value) }

  // What the device learns about a pack.
  function EntryOf(p: PackInfo): Pack {
    Pack(Kept(p.id), Kept(p.name), Kept(p.url), Kept(p.sha256), p.bytes, Int32(p.version), Int32(p.articles), true)
  }

  // ---- proofs ----

  lemma KeyIsOk(indent: string, key: string)
    requires Spaces(indent) && Writable(key) && |key| < TOKEN_CAP
    ensures KeyOk(Keyed(indent, key)) && Plain(Keyed(indent, key).name) == key
  {
    StringRoundTrip(key);
    hide PiecesOk, Writable, Plain;
    assert Spaces("\n" + indent);
  }

  lemma FieldIsOk(key: string, value: Scalar)
    requires Writable(key) && |key| < TOKEN_CAP && ScalarOk(value)
    ensures FieldOk(PackField(key, value)) && Plain(PackField(key, value).key.name) == key
    ensures FieldOk(Ended(PackField(key, value), "\n    ")) && Plain(Ended(PackField(key, value), "\n    ").key.name) == key
  {
    hide KeyOk, ScalarOk, Plain, Keyed;
    KeyIsOk("      ", key);
  }

  // The one field with a key decides its value.
  lemma {:induction false} OnlyText(fs: seq<Field>, key: string, i: nat)
    requires i < |fs| && Plain(fs[i].key.name) == key && fs[i].value.Str?
    requires forall j :: i < j < |fs| ==> Plain(fs[j].key.name) != key
    ensures LastText(fs, key) == Plain(fs[i].value.pieces)
  {
    hide Plain;
    if i < |fs| - 1 {
      OnlyText(fs[..|fs| - 1], key, i);
    }
  }

  lemma {:induction false} OnlyNumber(fs: seq<Field>, key: string, i: nat, none: int)
    requires FieldsOk(fs) && i < |fs| && Plain(fs[i].key.name) == key && fs[i].value.Num?
    requires forall j :: i < j < |fs| ==> Plain(fs[j].key.name) != key
    ensures LastNumber(fs, key, none) == Signed(fs[i].value.negative, Value(fs[i].value.digits))
  {
    hide Plain, Value;
    if i < |fs| - 1 {
      OnlyNumber(fs[..|fs| - 1], key, i, none);
    }
  }

  function Offset(p: PackInfo): nat { if p.collection.Some? then 1 else 0 }

  function KeysOf(p: PackInfo): seq<string> {
    ["articles", "bytes"] + (if p.collection.Some? then ["collection"] else [])
    + ["description", "id", "license", "name", "sha256", "url", "version"]
  }

  lemma NumberIsOk(n: nat)
    ensures ScalarOk(Number(n))
  {
    DecimalRoundTrip(n);
  }

  lemma TextIsOk(s: string)
    ensures ScalarOk(Text(s)) && Plain(Text(s).pieces) == Kept(s) && |Text(s).pieces| == |Kept(s)|
    ensures s != "" ==> Kept(s) != ""
  {
    StringRoundTrip(s);
  }

  lemma KeysWritable()
    ensures Writable("articles") && Writable("bytes") && Writable("collection") && Writable("description") && Writable("id")
    ensures Writable("license") && Writable("name") && Writable("sha256") && Writable("url") && Writable("version")
  {}

  lemma FieldsAreOk(p: PackInfo)
    ensures FieldsOk(PackFields(p))
    ensures |PackFields(p)| == |KeysOf(p)|
    ensures forall i :: 0 <= i < |KeysOf(p)| ==> Plain(PackFields(p)[i].key.name) == KeysOf(p)[i]
  {
    hide FieldOk, Plain, PackField, Ended, ScalarOk, Writable, Text, Number, Kept;
    KeysWritable();
    NumberIsOk(p.articles);
    NumberIsOk(p.bytes);
    NumberIsOk(p.version);
    TextIsOk(p.description);
    TextIsOk(p.id);
    TextIsOk(p.license);
    TextIsOk(p.name);
    TextIsOk(p.sha256);
    TextIsOk(p.url);
    FieldIsOk("articles", Number(p.articles));
    FieldIsOk("bytes", Number(p.bytes));
    FieldIsOk("description", Text(p.description));
    FieldIsOk("id", Text(p.id));
    FieldIsOk("license", Text(p.license));
    FieldIsOk("name", Text(p.name));
    FieldIsOk("sha256", Text(p.sha256));
    FieldIsOk("url", Text(p.url));
    FieldIsOk("version", Number(p.version));
    if p.collection.Some? {
      TextIsOk(p.collection.value);
      FieldIsOk("collection", Text(p.collection.value));
    }
  }

  // After its place no key comes again.
  lemma KeyComesOnce(p: PackInfo, key: string, i: nat)
    requires i < |KeysOf(p)| && KeysOf(p)[i] == key
    ensures forall j :: i < j < |KeysOf(p)| ==> KeysOf(p)[j] != key
  {
    var o := Offset(p);
    assert |KeysOf(p)| == 9 + o;
    forall j | i < j < |KeysOf(p)| ensures KeysOf(p)[j] != key {
      if |KeysOf(p)[j]| == |key| {
        assert KeysOf(p)[j][0] != key[0];
      }
    }
  }

  lemma TextAt(p: PackInfo, key: string, i: nat)
    requires i < |PackFields(p)| == |KeysOf(p)| && KeysOf(p)[i] == key && PackFields(p)[i].value.Str?
    ensures LastText(PackFields(p), key) == Plain(PackFields(p)[i].value.pieces)
  {
    hide KeysOf, PackFields, Plain;
    FieldsAreOk(p);
    KeyComesOnce(p, key, i);
    OnlyText(PackFields(p), key, i);
  }

  lemma NumberAtKey(p: PackInfo, key: string, i: nat, none: int, n: nat)
    requires i < |PackFields(p)| == |KeysOf(p)| && KeysOf(p)[i] == key && PackFields(p)[i].value == Number(n)
    ensures FieldsOk(PackFields(p)) && LastNumber(PackFields(p), key, none) == n
  {
    hide KeysOf, PackFields, Plain, Value, Decimal;
    FieldsAreOk(p);
    KeyComesOnce(p, key, i);
    OnlyNumber(PackFields(p), key, i, none);
    DecimalRoundTrip(n);
  }

  // Where each field is, and its value.
  lemma Laid(p: PackInfo)
    ensures var fs, ks, o := PackFields(p), KeysOf(p), Offset(p);
            && |fs| == |ks| == 9 + o
            && ks[0] == "articles" && fs[0].value == Number(p.articles)
            && ks[1] == "bytes" && fs[1].value == Number(p.bytes)
            && (p.collection.Some? ==> ks[2] == "collection" && fs[2].value == Text(p.collection.value))
            && ks[2 + o] == "description" && fs[2 + o].value == Text(p.description)
            && ks[3 + o] == "id" && fs[3 + o].value == Text(p.id)
            && ks[4 + o] == "license" && fs[4 + o].value == Text(p.license)
            && ks[5 + o] == "name" && fs[5 + o].value == Text(p.name)
            && ks[6 + o] == "sha256" && fs[6 + o].value == Text(p.sha256)
            && ks[7 + o] == "url" && fs[7 + o].value == Text(p.url)
            && ks[8 + o] == "version" && fs[8 + o].value == Number(p.version)
  {
    hide Text, Number, Keyed;
  }

  lemma Describes(p: PackInfo)
    ensures FieldsOk(PackFields(p)) && Described(PackFields(p)).(complete := true) == EntryOf(p)
  {
    hide PackFields, KeysOf, FieldOk, Plain, LastText, LastNumber, Decimal, Kept, Pieces, FieldsOk;
    var o := Offset(p);
    Laid(p);
    FieldsAreOk(p);
    TextAt(p, "id", 3 + o);
    TextAt(p, "name", 5 + o);
    TextAt(p, "sha256", 6 + o);
    TextAt(p, "url", 7 + o);
    TextIsOk(p.id);
    TextIsOk(p.name);
    TextIsOk(p.sha256);
    TextIsOk(p.url);
    NumberAtKey(p, "articles", 0, 0, p.articles);
    NumberAtKey(p, "bytes", 1, -1, p.bytes);
    NumberAtKey(p, "version", 8 + o, 0, p.version);
  }

  lemma NumberFits(f: Field, n: nat)
    requires FieldOk(f) && f.value == Number(n)
    ensures FieldFits(f) <==> n <= INT64_MAX
  {
    DecimalRoundTrip(n);
    hide Plain, KeyOk, Decimal, Value;
  }

  lemma TextFits(f: Field, key: string, s: string)
    requires FieldOk(f) && f.value == Text(s) && Plain(f.key.name) == key
    ensures FieldFits(f) <==> (Cap(key).Some? ==> |Kept(s)| < Cap(key).value)
  {
    hide Plain, KeyOk, Cap, Pieces, Kept;
    TextIsOk(s);
  }

  lemma PackFits(p: PackInfo)
    requires FieldsOk(PackFields(p))
    ensures FieldsFit(PackFields(p)) <==>
              && |Kept(p.id)| < ID_CAP && |Kept(p.name)| < NAME_CAP && |Kept(p.url)| < URL_CAP && |Kept(p.sha256)| < SHA_CAP
              && p.bytes <= INT64_MAX && p.articles <= INT64_MAX && p.version <= INT64_MAX
  {
    hide PackFields, KeysOf, FieldFits, FieldOk, Plain, Text, Number, Kept, Pieces;
    var fs, ks, o := PackFields(p), KeysOf(p), Offset(p);
    FieldsAreOk(p);
    Laid(p);
    NumberFits(fs[0], p.articles);
    NumberFits(fs[1], p.bytes);
    NumberFits(fs[8 + o], p.version);
    if p.collection.Some? {
      TextFits(fs[2], ks[2], p.collection.value);
    }
    TextFits(fs[2 + o], ks[2 + o], p.description);
    TextFits(fs[3 + o], ks[3 + o], p.id);
    TextFits(fs[4 + o], ks[4 + o], p.license);
    TextFits(fs[5 + o], ks[5 + o], p.name);
    TextFits(fs[6 + o], ks[6 + o], p.sha256);
    TextFits(fs[7 + o], ks[7 + o], p.url);
  }

  lemma DescribedComplete(fs: seq<Field>, p: PackInfo)
    requires FieldsOk(fs) && Described(fs).(complete := true) == EntryOf(p)
    ensures Complete(Described(fs)) <==> p.id != "" && p.url != "" && p.sha256 != ""
  {
    hide LastText, LastNumber, FieldsOk, Kept;
    TextIsOk(p.id);
    TextIsOk(p.url);
    TextIsOk(p.sha256);
    assert EntryOf(p).id == Described(fs).id && EntryOf(p).url == Described(fs).url && EntryOf(p).sha256 == Described(fs).sha256;
  }

  // What the device makes of a printed pack.
  function Entry(p: PackInfo): Option<Pack> { if Installable(p) then Some(EntryOf(p)) else None }

  lemma RecordOf(p: PackInfo, last: bool)
    ensures PackObjectOk(PrintPack(p, last)) && Record(PrintPack(p, last)) == Entry(p)
  {
    hide PackFields, FieldsFit, FieldOk, Described, Complete, Kept;
    FieldsAreOk(p);
    Describes(p);
    PackFits(p);
    DescribedComplete(PackFields(p), p);
  }

  lemma PrintedPacks(ps: seq<PackInfo>)
    ensures PacksOk(PrintPacks(ps)) && forall i :: 0 <= i < |ps| ==> Record(PrintPacks(ps)[i]) == Entry(ps[i])
  {
    hide PackObjectOk, Record, PrintPack, Entry;
    forall i | 0 <= i < |ps| ensures PackObjectOk(PrintPacks(ps)[i]) && Record(PrintPacks(ps)[i]) == Entry(ps[i]) {
      RecordOf(ps[i], i == |ps| - 1);
    }
  }

  lemma RootKey(key: string)
    requires Writable(key) && |key| < TOKEN_CAP
    ensures KeyOk(Keyed("  ", key)) && Plain(Keyed("  ", key).name) == key
  {
    KeyIsOk("  ", key);
  }

  lemma BeforeOk(r: Release)
    requires ReleaseOk(r)
    ensures MembersOk(BeforePacks(r))
    ensures forall i :: 0 <= i < |BeforePacks(r)| ==> !BeforePacks(r)[i].PackList? && SilentOn(BeforePacks(r)[i])
  {
    hide Keyed, Text, Number, Nested, Kept, MemberOk, ScalarOk, Writable, SilentOn;
    RootKeys();
    NumberIsOk(r.version);
    TextIsOk(r.generated);
    ScalarMember("catalog_version", Number(r.version), "");
    ScalarMember("generated_at", Text(r.generated), "");
    if r.collections.Some? {
      CollectionsMember(r.collections.value);
    }
  }

  lemma ScalarMember(key: string, value: Scalar, end: string)
    requires Writable(key) && |key| < TOKEN_CAP && ScalarOk(value) && Spaces(end)
    ensures var m := Plainly(Field(Keyed("  ", key), value, end)); MemberOk(m) && (key != "schema" ==> SilentOn(m))
  {
    RootKey(key);
    hide Keyed, Plain, KeyOk, ScalarOk, Value;
  }

  lemma CollectionsMember(value: seq<Tok>)
    requires Nested(value)
    ensures var m := Other(Keyed("  ", "collections"), value, ""); MemberOk(m) && SilentOn(m)
  {
    RootKeys();
    RootKey("collections");
    hide Keyed, Plain, KeyOk, Nested, Writable;
    assert "collections" != "packs";
  }

  // What the reader takes a printed schema number for.
  function SchemaRead(schema: nat): int { if schema <= INT64_MAX then Int32(schema) else 0 }

  lemma LastOk(r: Release, schema: nat)
    requires ReleaseOk(r)
    ensures var m := Plainly(Field(Keyed("  ", "schema"), Number(schema), "\n"));
            MemberOk(m) && (SilentOn(m) <==> schema > INT64_MAX) && (schema <= INT64_MAX ==> Schema([m]) == Int32(schema))
    ensures var m := PackList(Keyed("  ", "packs"), "", PrintPacks(r.packs), ""); MemberOk(m)
  {
    PrintedPacks(r.packs);
    RootKey("packs");
    RootKey("schema");
    NumberIsOk(schema);
    DecimalRoundTrip(schema);
    hide PrintPacks, PackObjectOk, Keyed, Decimal, Plain, KeyOk, Digits, Value, Int32;
  }

  lemma {:induction false} SilentAll(ms: seq<Member>)
    requires MembersOk(ms) && forall i :: 0 <= i < |ms| ==> SilentOn(ms[i])
    ensures Schema(ms) == 0
  {
    hide SilentOn, MemberOk;
    if |ms| > 0 {
      SilentAll(ms[..|ms| - 1]);
    }
  }

  lemma Printed(r: Release, schema: nat)
    requires ReleaseOk(r)
    ensures CatalogueOk(PrintAs(r, schema)) && Schema(PrintAs(r, schema).members) == SchemaRead(schema)
  {
    hide BeforePacks, MemberOk, Keyed, Number, SilentOn, PrintPacks, Nested, Schema, Int32;
    BeforeOk(r);
    LastOk(r, schema);
    var before, packs := BeforePacks(r), PackList(Keyed("  ", "packs"), "", PrintPacks(r.packs), "");
    var last := Plainly(Field(Keyed("  ", "schema"), Number(schema), "\n"));
    SchemaLast(before, packs);
    SilentAll(before);
    SchemaLast(before + [packs], last);
  }

  lemma PrintedAll(r: Release, schema: nat)
    requires ReleaseOk(r)
    ensures MembersOk(PrintAs(r, schema).members) && AllPacks(PrintAs(r, schema).members) == PrintPacks(r.packs)
  {
    hide PrintPacks, BeforePacks, MemberOk, Keyed, Number, AllPacks;
    BeforeOk(r);
    LastOk(r, schema);
    var before, packs := BeforePacks(r), PackList(Keyed("  ", "packs"), "", PrintPacks(r.packs), "");
    var last := Plainly(Field(Keyed("  ", "schema"), Number(schema), "\n"));
    NoPacks(before);
    AllPacksStep(before, packs);
    AllPacksStep(before + [packs], last);
  }

  lemma AllPacksStep(ms: seq<Member>, m: Member)
    requires MembersOk(ms) && MemberOk(m)
    ensures MembersOk(ms + [m]) && AllPacks(ms + [m]) == AllPacks(ms) + PacksOf(m)
  {
    hide MemberOk;
    assert (ms + [m])[..|ms|] == ms;
  }

  lemma {:induction false} NoPacks(ms: seq<Member>)
    requires MembersOk(ms) && forall i :: 0 <= i < |ms| ==> !ms[i].PackList?
    ensures AllPacks(ms) == []
  {
    if |ms| > 0 {
      NoPacks(ms[..|ms| - 1]);
    }
  }

  predicate Matches(p: PackInfo, id: Option<string>, url: Option<string>) { id == Some(Kept(p.id)) || url == Some(Kept(p.url)) }

  // The first pack asked for, with nothing before it that the device cannot install.
  predicate FirstMatch(ps: seq<PackInfo>, id: Option<string>, url: Option<string>, i: nat) {
    && i < |ps| && Matches(ps[i], id, url)
    && (forall j :: 0 <= j < i ==> !Matches(ps[j], id, url)) && (forall j :: 0 <= j <= i ==> Installable(ps[j]))
  }

  lemma FirstPrinted(ps: seq<PackInfo>, id: Option<string>, url: Option<string>, i: nat)
    requires PacksOk(PrintPacks(ps))
    ensures IsFirst(Find(id, url), PrintPacks(ps), i) <==> FirstMatch(ps, id, url, i)
    ensures FirstMatch(ps, id, url, i) ==> i < |ps| && Record(PrintPacks(ps)[i]) == Some(EntryOf(ps[i]))
  {
    hide Installable, Record, PackObjectOk, PrintPack, Kept, PrintPacks;
    var printed := PrintPacks(ps);
    PrintedPacks(ps);
    if i < |ps| {
      assert forall j :: 0 <= j < i ==> printed[..i][j] == printed[j];
    }
  }

  ghost predicate Answers(ps: seq<PackInfo>, id: Option<string>, url: Option<string>, found: Option<Pack>) {
    && (found.None? <==> forall i: nat :: !FirstMatch(ps, id, url, i))
    && (found.Some? ==> exists i: nat :: FirstMatch(ps, id, url, i) && found.value == EntryOf(ps[i]))
  }

  lemma SearchPrinted(ps: seq<PackInfo>, id: Option<string>, url: Option<string>)
    requires PacksOk(PrintPacks(ps))
    ensures var o := Search(Find(id, url), PrintPacks(ps)); Answers(ps, id, url, if o.Found? then Some(o.p) else None)
  {
    hide Installable, Record, PackObjectOk, Search, PrintPack, PrintPacks, FirstMatch, IsFirst, EntryOf;
    var mode, printed := Find(id, url), PrintPacks(ps);
    SearchMeaning(mode, printed);
    forall i: nat ensures IsFirst(mode, printed, i) <==> FirstMatch(ps, id, url, i)
                  ensures FirstMatch(ps, id, url, i) ==> i < |ps| && Record(printed[i]) == Some(EntryOf(ps[i]))
    {
      FirstPrinted(ps, id, url, i);
    }
    var o := Search(mode, printed);
    if i: nat :| FirstMatch(ps, id, url, i) {
      assert o == Found(EntryOf(ps[i])) by {
        assert IsFirst(mode, printed, i) && Record(printed[i]) == Some(EntryOf(ps[i]));
      }
    }
  }

  // The reader undoes the printer: it finds, field for field, the first pack of
  // the release with the id or the url, and nothing just when no pack has them
  // or one up to it cannot be installed.
  lemma ReadsBack(r: Release, id: Option<string>, url: Option<string>)
    requires ReleaseOk(r)
    ensures Answers(r.packs, id, url, FindIn(TextOf(Print(r)), id, url))
  {
    hide TextOf, PrintAs, FindIn, Record, Schema, PackObjectOk, CatalogueOk, Search, AllPacks, PrintPacks, Answers;
    PrintedPacks(r.packs);
    Printed(r, 1);
    PrintedAll(r, 1);
    FindsFirst(Print(r), id, url);
    SearchPrinted(r.packs, id, url);
  }

  // The reader keeps only characters that need no numbered escape.
  lemma {:induction false} KeptWritable(s: string)
    ensures Writable(Kept(s))
  {
    hide Escaped, Short;
    if |s| > 0 {
      KeptWritable(s[..|s| - 1]);
      CharWritable(s[|s| - 1]);
      assert Kept(s) == Kept(s[..|s| - 1]) + Plain(Escaped(s[|s| - 1]));
    }
  }

  lemma CharWritable(c: char)
    ensures forall i :: 0 <= i < |Plain(Escaped(c))| ==> Short(Plain(Escaped(c))[i])
  {}

  // No earlier pack is kept under the same id, and none up to it is one that
  // the device cannot install.
  predicate InReach(ps: seq<PackInfo>, i: nat) {
    && i < |ps| && (forall j :: 0 <= j < i ==> Kept(ps[j].id) != Kept(ps[i].id))
    && forall j :: 0 <= j <= i ==> Installable(ps[j])
  }

  // An id that needs a numbered escape finds nothing, whatever is listed. Any
  // other id finds its pack if that is in reach, and only then unless an earlier
  // pack is kept as the very same entry.
  lemma FoundById(r: Release, i: nat)
    requires ReleaseOk(r) && i < |r.packs|
    ensures var found, ps := FindIn(TextOf(Print(r)), Some(r.packs[i].id), None), r.packs;
            && (!Writable(ps[i].id) ==> found == None)
            && (Writable(ps[i].id) && InReach(ps, i) ==> found == Some(EntryOf(ps[i])))
            && ((forall j :: 0 <= j < i ==> EntryOf(ps[j]) != EntryOf(ps[i])) ==>
                  (found == Some(EntryOf(ps[i])) <==> Writable(ps[i].id) && InReach(ps, i)))
  {
    hide TextOf, Print, FindIn, Writable, Kept, Installable, EntryOf;
    var ps, id := r.packs, r.packs[i].id;
    ReadsBack(r, Some(id), None);
    StringRoundTrip(id);
    forall j | 0 <= j < |ps| ensures Writable(Kept(ps[j].id)) {
      KeptWritable(ps[j].id);
    }
    forall k: nat | FirstMatch(ps, Some(id), None, k) ensures Kept(ps[k].id) == id {}
    if Writable(id) && InReach(ps, i) {
      assert FirstMatch(ps, Some(id), None, i);
      forall k: nat | FirstMatch(ps, Some(id), None, k) ensures k == i {}
    }
  }

  // The device accepts a file in the tool's layout just when its schema is 1
  // modulo 2^32, it lists a pack and every one it lists can be installed.
  lemma ValidatesAs(r: Release, schema: nat)
    requires ReleaseOk(r)
    ensures var t := Final(Validate, [], TextOf(PrintAs(r, schema)));
            Usable(t) && t.doc.entries > 0 <==>
              && schema <= INT64_MAX && (schema - 1) % U32 == 0
              && r.packs != [] && forall i :: 0 <= i < |r.packs| ==> Installable(r.packs[i])
  {
    hide TextOf, PrintAs, Final, Record, Schema, PackObjectOk, CatalogueOk, AllPacks, PrintPacks, Installable, Usable, Int32;
    PrintedPacks(r.packs);
    Printed(r, schema);
    PrintedAll(r, schema);
    SchemaOne(schema);
    ValidatesAll(PrintAs(r, schema));
  }

  // The device accepts a published file just when it lists a pack and can
  // install every one it lists.
  lemma PrintedValidates(r: Release)
    requires ReleaseOk(r)
    ensures var t := Final(Validate, [], TextOf(Print(r)));
            Usable(t) && t.doc.entries > 0 <==> r.packs != [] && forall i :: 0 <= i < |r.packs| ==> Installable(r.packs[i])
  {
    hide TextOf, PrintAs, Final, Installable, Usable;
    ValidatesAs(r, 1);
  }

  lemma HeaderStep(ms: seq<Member>, m: Member)
    requires MembersOk(ms) && MemberOk(m)
    ensures Version(ms + [m]) == if m.Plainly? && VersionOf(m.field).Some? then VersionOf(m.field).value else Version(ms)
    ensures Stamp(ms + [m]) == if m.Plainly? && StampOf(m.field).Some? then StampOf(m.field).value else Stamp(ms)
  {
    hide VersionOf, StampOf, MemberOk;
    assert (ms + [m])[..|ms|] == ms;
  }

  // What a header field tells.
  lemma HeaderValue(key: string, value: Scalar, end: string)
    requires Writable(key) && |key| < TOKEN_CAP && ScalarOk(value) && Spaces(end)
    ensures var f := Field(Keyed("  ", key), value, end);
            && MemberOk(Plainly(f))
            && (key != "catalog_version" || value.Str? ==> VersionOf(f).None?)
            && (key != "generated_at" || value.Num? ==> StampOf(f).None?)
            && (key == "generated_at" && value.Str? ==>
                  StampOf(f) == if |value.pieces| < STAMP_CAP then Some(Plain(value.pieces)) else None)
            && (key == "catalog_version" && value.Num? ==>
                  VersionOf(f) == if Value(value.digits) <= INT64_MAX then Some(Int32(Signed(value.negative, Value(value.digits)))) else None)
  {
    RootKey(key);
    hide Keyed, Value, Int32, Plain, KeyOk;
  }

  lemma RootKeys()
    ensures Writable("catalog_version") && Writable("collections") && Writable("generated_at") && Writable("schema")
  {}

  lemma HeaderValues(r: Release)
    ensures var m := VersionMember(r);
            && MemberOk(m) && StampOf(m.field).None?
            && VersionOf(m.field) == if r.version <= INT64_MAX then Some(Int32(r.version)) else None
    ensures var m := StampMember(r);
            && MemberOk(m) && VersionOf(m.field).None?
            && StampOf(m.field) == if |Kept(r.generated)| < STAMP_CAP then Some(Kept(r.generated)) else None
  {
    hide Keyed, Decimal, Kept, Pieces, VersionOf, StampOf, MemberOk, Value, Plain, Int32, Writable, Digits;
    RootKeys();
    NumberIsOk(r.version);
    DecimalRoundTrip(r.version);
    TextIsOk(r.generated);
    HeaderValue("catalog_version", Number(r.version), "");
    HeaderValue("generated_at", Text(r.generated), "");
  }

  lemma BeforeHeader(r: Release)
    requires ReleaseOk(r)
    ensures var ms := BeforePacks(r);
            && MembersOk(ms) && Version(ms) == (if r.version <= INT64_MAX then Int32(r.version) else 0)
            && Stamp(ms) == if |Kept(r.generated)| < STAMP_CAP then Kept(r.generated) else ""
  {
    hide Keyed, Kept, VersionOf, StampOf, MemberOk, Version, Stamp, Int32, Text, Number;
    BeforeOk(r);
    HeaderValues(r);
    NoHeader();
    var version, stamp := VersionMember(r), StampMember(r);
    HeaderStep([], version);
    assert [] + [version] == [version];
    if r.collections.Some? {
      var collections := Other(Keyed("  ", "collections"), r.collections.value, "");
      assert BeforePacks(r)[1] == collections;
      HeaderStep([version], collections);
      HeaderStep([version] + [collections], stamp);
    } else {
      HeaderStep([version], stamp);
      assert BeforePacks(r) == [version] + [stamp];
    }
  }

  lemma NoHeader()
    ensures Version([]) == 0 && Stamp([]) == ""
  {}

  // The header of a published file comes back, unless it does not fit.
  lemma HeaderReadsBack(r: Release)
    requires ReleaseOk(r)
    ensures var t := Final(Header, [], TextOf(Print(r)));
            && Usable(t) && t.doc.version == (if r.version <= INT64_MAX then Int32(r.version) else 0)
            && t.doc.stamp == if |Kept(r.generated)| < STAMP_CAP then Kept(r.generated) else ""
  {
    hide TextOf, Final, Schema, BeforePacks, Keyed, Number, Kept, VersionOf, StampOf, MemberOk, Version, Stamp, Usable, PrintPacks, Int32;
    Printed(r, 1);
    BeforeHeader(r);
    LastOk(r, 1);
    RootKeys();
    NumberIsOk(1);
    HeaderValue("schema", Number(1), "\n");
    var packs := PackList(Keyed("  ", "packs"), "", PrintPacks(r.packs), "");
    HeaderStep(BeforePacks(r), packs);
    HeaderStep(BeforePacks(r) + [packs], Plainly(Field(Keyed("  ", "schema"), Number(1), "\n")));
    HeaderIgnoresPacks(Print(r));
  }
}
