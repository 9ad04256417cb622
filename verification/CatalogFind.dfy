/**
 What the catalogue reader answers, said of the catalogue itself: the packs in
 order, each as the last value of every field, and the first one that matches.
 */
module CatalogFind {
  import opened Bytes
  import opened CatalogIndex
  import opened CatalogText
  import opened Options

  // ---- one pack ----

  // The last string, and the last integer, among the fields with this key.
  function LastText(fs: seq<Field>, key: string): string {
    if |fs| == 0 then ""
    else
      var f := fs[|fs| - 1];
      if Plain(f.key.name) == key && f.value.Str? then Plain(f.value.pieces) else LastText(fs[..|fs| - 1], key)
  }

  function LastNumber(fs: seq<Field>, key: string, none: int): int
    requires FieldsOk(fs)
  {
    if |fs| == 0 then none
    else
      var f := fs[|fs| - 1];
      if Plain(f.key.name) == key && f.value.Num? then Signed(f.value.negative, Value(f.value.digits))
      else LastNumber(fs[..|fs| - 1], key, none)
  }

  function Cap(key: string): Option<nat> {
    if key == "id" then Some(ID_CAP) else if key == "name" then Some(NAME_CAP)
    else if key == "url" then Some(URL_CAP) else if key == "sha256" then Some(SHA_CAP) else None
  }

  // The value fits where the device keeps it.
  predicate FieldFits(f: Field)
    requires FieldOk(f)
  {
    match f.value
    case Str(ps) => Cap(Plain(f.key.name)).Some? ==> |ps| < Cap(Plain(f.key.name)).value
    case Num(_, digits) => Value(digits) <= INT64_MAX
    case Word(_) => true
  }

  predicate FieldsFit(fs: seq<Field>)
    requires FieldsOk(fs)
  {
    forall i :: 0 <= i < |fs| ==> FieldFits(fs[i])
  }

  function Described(fs: seq<Field>): Pack
    requires FieldsOk(fs)
  {
    Pack(LastText(fs, "id"), LastText(fs, "name"), LastText(fs, "url"), LastText(fs, "sha256"),
         LastNumber(fs, "bytes", -1), Int32(LastNumber(fs, "version", 0)), Int32(LastNumber(fs, "articles", 0)), false)
  }

  // The entry of a pack the device can install from.
  function Record(p: PackObject): Option<Pack>
    requires PackObjectOk(p)
  {
    if FieldsFit(p.fields) && Complete(Described(p.fields)) then Some(Described(p.fields).(complete := true)) else None
  }

  lemma EffectDescribes(d: Doc, fs: seq<Field>, f: Field)
    requires FieldsOk(fs) && FieldOk(f) && d.depth != 1 && d.inPack && d.pack == Described(fs)
    ensures var d1 := Effect(d, Plain(f.key.name), f.value);
            d1 == if FieldFits(f) then d.(pack := Described(fs + [f])) else d.(failed := true)
  {
    if f.value.Str? {
      TextDescribes(fs, f);
    } else if f.value.Num? {
      NumberDescribes(d, fs, f);
    } else {
      assert (fs + [f])[..|fs|] == fs;
    }
    hide Value, Plain, Int32, LastText, LastNumber, PackString, NumberAt, Cap;
  }

  lemma TextStep(fs: seq<Field>, f: Field, key: string)
    ensures LastText(fs + [f], key) ==
            if Plain(f.key.name) == key && f.value.Str? then Plain(f.value.pieces) else LastText(fs, key)
  {
    assert (fs + [f])[..|fs|] == fs;
  }

  lemma NumberStep(fs: seq<Field>, f: Field, key: string, none: int)
    requires FieldsOk(fs) && FieldOk(f)
    ensures LastNumber(fs + [f], key, none) ==
            if Plain(f.key.name) == key && f.value.Num? then Signed(f.value.negative, Value(f.value.digits))
            else LastNumber(fs, key, none)
  {
    hide Value, Plain;
    assert (fs + [f])[..|fs|] == fs;
  }

  lemma DescribedStep(fs: seq<Field>, f: Field)
    requires FieldsOk(fs) && FieldOk(f)
    ensures !f.value.Str? ==> forall key: string :: LastText(fs + [f], key) == LastText(fs, key)
    ensures !f.value.Num? ==> forall key: string, none :: LastNumber(fs + [f], key, none) == LastNumber(fs, key, none)
  {
    hide LastText, LastNumber, Value, Plain;
    forall key: string ensures !f.value.Str? ==> LastText(fs + [f], key) == LastText(fs, key) {
      TextStep(fs, f, key);
    }
    forall key: string, none ensures !f.value.Num? ==> LastNumber(fs + [f], key, none) == LastNumber(fs, key, none) {
      NumberStep(fs, f, key, none);
    }
  }

  lemma TextDescribes(fs: seq<Field>, f: Field)
    requires FieldsOk(fs) && FieldOk(f) && f.value.Str?
    ensures PackString(Described(fs), Plain(f.key.name), Plain(f.value.pieces))
            == if FieldFits(f) then Some(Described(fs + [f])) else None
  {
    hide LastText, LastNumber, Plain, Int32;
    DescribedStep(fs, f);
    TextStep(fs, f, "id");
    TextStep(fs, f, "name");
    TextStep(fs, f, "url");
    TextStep(fs, f, "sha256");
  }

  lemma NumberDescribes(d: Doc, fs: seq<Field>, f: Field)
    requires FieldsOk(fs) && FieldOk(f) && f.value.Num? && d.depth != 1 && d.inPack && d.pack == Described(fs)
    ensures NumberAt(d, Plain(f.key.name), Signed(f.value.negative, Value(f.value.digits))) == d.(pack := Described(fs + [f]))
  {
    hide LastText, LastNumber, Plain, Value, Int32, Signed;
    DescribedStep(fs, f);
    NumberStep(fs, f, "bytes", -1);
    NumberStep(fs, f, "version", 0);
    NumberStep(fs, f, "articles", 0);
  }

  // Folding the fields into the pack gives the last value of each; a field that
  // does not fit stops the fold and leaves the pack as the fields before it say.
  lemma {:induction false} FieldsDescribe(d: Doc, fs: seq<Field>)
    requires FieldsOk(fs) && d.depth != 1 && d.inPack && d.pack == NO_PACK && !d.failed
    ensures var d1 := FieldsEffect(d, fs);
            && d1 == d.(pack := d1.pack, failed := !FieldsFit(fs))
            && (FieldsFit(fs) ==> d1.pack == Described(fs))
            && (|fs| > 0 && FieldsFit(fs[..|fs| - 1]) && !FieldsFit(fs) ==> d1.pack == Described(fs[..|fs| - 1]))
  {
    if |fs| == 0 {
    } else {
      hide Effect, Described, FieldFits, Plain, FieldOk;
      var front, f := fs[..|fs| - 1], fs[|fs| - 1];
      FieldsDescribe(d, front);
      assert fs == front + [f];
      if FieldsFit(front) {
        EffectDescribes(FieldsEffect(d, front), front, f);
      }
    }
  }

  lemma {:induction false} FieldsPassed(d: Doc, fs: seq<Field>)
    requires FieldsOk(fs) && d.depth != 1 && !d.inPack && !d.failed
    ensures FieldsEffect(d, fs) == d
  {
    if |fs| > 0 {
      FieldsPassed(d, fs[..|fs| - 1]);
    }
  }

  // ---- all packs ----

  datatype Outcome = Searching | Broken | Found(p: Pack)

  // The first wanted entry, unless an unusable one comes before it.
  function Search(mode: Mode, ps: seq<PackObject>): Outcome
    requires PacksOk(ps)
  {
    if |ps| == 0 then Searching
    else
      var o, r := Search(mode, ps[..|ps| - 1]), Record(ps[|ps| - 1]);
      if !o.Searching? then o
      else if r.None? then Broken
      else if Wanted(mode, r.value) then Found(r.value) else Searching
  }

  // All usable, none wanted.
  predicate NoneWanted(mode: Mode, ps: seq<PackObject>)
    requires PacksOk(ps)
  {
    forall j :: 0 <= j < |ps| ==> Record(ps[j]).Some? && !Wanted(mode, Record(ps[j]).value)
  }

  predicate IsFirst(mode: Mode, ps: seq<PackObject>, i: nat)
    requires PacksOk(ps)
  {
    i < |ps| && Record(ps[i]).Some? && Wanted(mode, Record(ps[i]).value) && NoneWanted(mode, ps[..i])
  }

  lemma {:induction false} SearchesOn(mode: Mode, ps: seq<PackObject>)
    requires PacksOk(ps)
    ensures Search(mode, ps).Searching? <==> NoneWanted(mode, ps)
    ensures Search(mode, ps).Broken? ==> exists j :: 0 <= j < |ps| && Record(ps[j]).None?
  {
    hide Record, Wanted, PackObjectOk;
    if |ps| > 0 {
      var front := ps[..|ps| - 1];
      SearchesOn(mode, front);
      assert forall j :: 0 <= j < |front| ==> front[j] == ps[j];
    }
  }

  lemma {:induction false} SearchMeaning(mode: Mode, ps: seq<PackObject>)
    requires PacksOk(ps)
    ensures forall p :: Search(mode, ps) == Found(p) <==> exists i: nat :: IsFirst(mode, ps, i) && Record(ps[i]) == Some(p)
  {
    hide Record, Wanted, PackObjectOk, NoneWanted;
    if |ps| > 0 {
      var n := |ps| - 1;
      var front := ps[..n];
      SearchMeaning(mode, front);
      SearchesOn(mode, front);
      forall i: nat | i < n ensures IsFirst(mode, front, i) <==> IsFirst(mode, ps, i) {
        assert front[..i] == ps[..i];
      }
      forall i: nat | i < n && IsFirst(mode, ps, i) ensures !NoneWanted(mode, front) {
        NotNoneWanted(mode, front, i);
      }
    }
  }

  lemma NotNoneWanted(mode: Mode, ps: seq<PackObject>, i: nat)
    requires PacksOk(ps) && IsFirst(mode, ps, i)
    ensures !NoneWanted(mode, ps)
  {}

  // A document in a find pass agrees with the search so far.
  predicate Agrees(d: Doc, o: Outcome) {
    match o
    case Searching => !d.failed && !d.done
    case Broken => d.failed
    case Found(p) => !d.failed && d.done && d.found == p
  }

  lemma EndStaysFailed(d: Doc)
    ensures d.failed ==> EndContainer(d, '}').failed
  {
    if d.failed {
      EndFailed(d, '}');
    }
  }

  lemma PackAgrees(d: Doc, p: PackObject)
    requires Among(d) && d.mode.Find? && !d.failed && PackObjectOk(p)
    ensures var d1, r := PackEffect(d, p), Record(p);
            if d.done then d1 == d
            else Agrees(d1, if r.None? then Broken else if Wanted(d.mode, r.value) then Found(r.value) else Searching)
                 && (d1.failed || (d1.schema == d.schema && d1.version == d.version && d1.stamp == d.stamp))
  {
    hide FieldsEffect, Described, FieldsFit, EndsInString;
    var d1 := StartContainer(d, false, '{');
    if d.done {
      FieldsPassed(d1, p.fields);
    } else {
      FieldsDescribe(d1, p.fields);
      EndStaysFailed(FieldsEffect(d1, p.fields));
    }
  }

  lemma {:induction false} PacksAgree(d: Doc, before: seq<PackObject>, ps: seq<PackObject>)
    requires Among(d) && d.mode.Find? && !d.failed && PacksOk(before) && PacksOk(ps) && Agrees(d, Search(d.mode, before))
    ensures var d1 := PacksEffect(d, ps);
            Agrees(d1, Search(d.mode, before + ps)) && (d1.failed || d1.schema == d.schema)
  {
    hide PackEffect, Record;
    if |ps| == 0 {
      assert before + ps == before;
    } else {
      var front, p := ps[..|ps| - 1], ps[|ps| - 1];
      PacksAgree(d, before, front);
      PacksKeep(d, front);
      assert (before + ps)[..|before + front|] == before + front;
      var d1 := PacksEffect(d, front);
      if !d1.failed {
        PackAgrees(d1, p);
      }
    }
  }

  // ---- the whole catalogue ----

  // Every pack of the document, in order.
  function AllPacks(ms: seq<Member>): (ps: seq<PackObject>)
    requires MembersOk(ms)
    ensures PacksOk(ps)
  {
    if |ms| == 0 then []
    else AllPacks(ms[..|ms| - 1]) + PacksOf(ms[|ms| - 1])
  }

  // The member does not set the schema.
  predicate SilentOn(m: Member)
    requires MemberOk(m)
  {
    !(m.Plainly? && Plain(m.field.key.name) == "schema" && m.field.value.Num? && Value(m.field.value.digits) <= INT64_MAX)
  }

  // The schema the document declares: its last number under that key, as an int.
  function Schema(ms: seq<Member>): int
    requires MembersOk(ms)
  {
    if |ms| == 0 then 0
    else
      var m := ms[|ms| - 1];
      if SilentOn(m) then Schema(ms[..|ms| - 1]) else Int32(Signed(m.field.value.negative, Value(m.field.value.digits)))
  }

  // A scalar member changes only the header fields.
  lemma RootField(d: Doc, f: Field)
    requires Outside(d) && FieldOk(f)
    ensures var d1 := Effect(d, Plain(f.key.name), f.value);
            && d1.(schema := d.schema, version := d.version, stamp := d.stamp) == d
            && d1.schema == if SilentOn(Plainly(f)) then d.schema else Schema([Plainly(f)])
  {
    assert [Plainly(f)][..0] == [];
    hide Value, Plain, Int32;
  }

  function PacksOf(m: Member): (ps: seq<PackObject>)
    requires MemberOk(m)
    ensures PacksOk(ps)
  {
    if m.PackList? then m.packs else []
  }

  lemma {:induction false} SearchEnds(mode: Mode, a: seq<PackObject>, b: seq<PackObject>)
    requires PacksOk(a) && PacksOk(b) && !Search(mode, a).Searching?
    ensures PacksOk(a + b) && Search(mode, a + b) == Search(mode, a)
  {
    hide Record;
    if |b| == 0 {
      assert a + b == a;
    } else {
      SearchEnds(mode, a, b[..|b| - 1]);
      assert (a + b)[..|a + b| - 1] == a + b[..|b| - 1];
    }
  }

  lemma MemberAgrees(d: Doc, before: seq<PackObject>, m: Member)
    requires Outside(d) && d.mode.Find? && PacksOk(before) && Agrees(d, Search(d.mode, before)) && MemberOk(m)
    ensures var d1 := MemberEffect(d, m);
            Agrees(d1, Search(d.mode, before + PacksOf(m)))
            && (d1.failed || d1.schema == if SilentOn(m) then d.schema else Schema([m]))
  {
    hide PacksEffect, Effect, Record, Search, Value, Int32;
    assert [m][..0] == [];
    assert before + [] == before;
    match m
    case Plainly(f) => RootField(d, f);
    case PackList(_, _, ps, _) =>
      PacksAgree(StartContainer(d, true, '['), before, ps);
      PacksKeep(StartContainer(d, true, '['), ps);
    case Other(_, _, _) =>
  }

  lemma {:induction false} MembersAgree(d: Doc, ms: seq<Member>)
    requires Outside(d) && d.mode.Find? && !d.done && d.schema == 0 && MembersOk(ms)
    ensures var d1 := MembersEffect(d, ms);
            Agrees(d1, Search(d.mode, AllPacks(ms))) && (d1.failed || d1.schema == Schema(ms))
  {
    hide MemberEffect, Record, SilentOn;
    if |ms| > 0 {
      var front, m := ms[..|ms| - 1], ms[|ms| - 1];
      MembersAgree(d, front);
      MembersKeep(d, front);
      var d1 := MembersEffect(d, front);
      if d1.failed {
        SearchEnds(d.mode, AllPacks(front), PacksOf(m));
      } else {
        MemberAgrees(d1, AllPacks(front), m);
      }
    }
  }

  // pw_catalog_find on any text of any such catalogue.
  lemma FindsFirst(c: Catalogue, id: Option<string>, url: Option<string>)
    requires CatalogueOk(c)
    ensures var o := Search(Find(id, url), AllPacks(c.members));
            FindIn(TextOf(c), id, url) == if Schema(c.members) == 1 && o.Found? then Some(o.p) else None
  {
    hide Feed, TextOf, MembersEffect, Search, Schema, FeedAll;
    TextMeans(c, Find(id, url), []);
    MembersAgree(Root(Find(id, url), []), c.members);
    FoundComplete(Find(id, url), AllPacks(c.members));
  }

  lemma {:induction false} FoundComplete(mode: Mode, ps: seq<PackObject>)
    requires PacksOk(ps)
    ensures Search(mode, ps).Found? ==> Search(mode, ps).p.complete
  {
    if |ps| > 0 {
      FoundComplete(mode, ps[..|ps| - 1]);
    }
  }

  // The schema test compares an int, so it is a test modulo 2^32.
  lemma SchemaOne(n: int)
    ensures Int32(n) == 1 <==> (n - 1) % U32 == 0
  {}

  // ---- the other passes ----

  predicate AllUsable(ps: seq<PackObject>)
    requires PacksOk(ps)
  {
    forall j :: 0 <= j < |ps| ==> Record(ps[j]).Some?
  }

  // A document in a validate pass has counted these packs.
  predicate Counts(d: Doc, ps: seq<PackObject>)
    requires PacksOk(ps)
  {
    if AllUsable(ps) then !d.failed && !d.done && d.slots == [] && d.entries == |ps| else d.failed
  }

  lemma UsableStep(ps: seq<PackObject>, p: PackObject)
    requires PacksOk(ps) && PackObjectOk(p)
    ensures AllUsable(ps + [p]) <==> AllUsable(ps) && Record(p).Some?
  {
    hide Record;
    assert forall j :: 0 <= j < |ps| ==> (ps + [p])[j] == ps[j];
    assert (ps + [p])[|ps|] == p;
  }

  lemma PackCounts(d: Doc, p: PackObject)
    requires Among(d) && d.mode.Validate? && d.slots == [] && !d.done && !d.failed && PackObjectOk(p)
    ensures var d1 := PackEffect(d, p);
            if Record(p).None? then d1.failed
            else !d1.failed && !d1.done && d1.slots == [] && d1.entries == d.entries + 1 && d1.schema == d.schema
  {
    hide FieldsEffect, Described, FieldsFit, EndsInString;
    FieldsDescribe(StartContainer(d, false, '{'), p.fields);
    EndStaysFailed(FieldsEffect(StartContainer(d, false, '{'), p.fields));
  }

  lemma {:induction false} PacksCount(d: Doc, before: seq<PackObject>, ps: seq<PackObject>)
    requires Among(d) && d.mode.Validate? && !d.failed && PacksOk(before) && PacksOk(ps) && Counts(d, before)
    ensures var d1 := PacksEffect(d, ps); Counts(d1, before + ps) && (d1.failed || d1.schema == d.schema)
  {
    hide PackEffect, Record;
    if |ps| == 0 {
      assert before + ps == before;
    } else {
      var front, p := ps[..|ps| - 1], ps[|ps| - 1];
      PacksCount(d, before, front);
      PacksKeep(d, front);
      UsableStep(before + front, p);
      assert before + ps == before + front + [p];
      var d1 := PacksEffect(d, front);
      if !d1.failed {
        PackCounts(d1, p);
      }
    }
  }

  lemma MemberCounts(d: Doc, before: seq<PackObject>, m: Member)
    requires Outside(d) && d.mode.Validate? && PacksOk(before) && Counts(d, before) && MemberOk(m)
    ensures var d1 := MemberEffect(d, m);
            Counts(d1, before + PacksOf(m)) && (d1.failed || d1.schema == if SilentOn(m) then d.schema else Schema([m]))
  {
    hide PacksEffect, Effect, Record, Value, Int32;
    assert [m][..0] == [];
    assert before + [] == before;
    match m
    case Plainly(f) => RootField(d, f);
    case PackList(_, _, ps, _) =>
      PacksCount(StartContainer(d, true, '['), before, ps);
      PacksKeep(StartContainer(d, true, '['), ps);
    case Other(_, _, _) =>
  }

  lemma UnusableStays(a: seq<PackObject>, b: seq<PackObject>)
    requires PacksOk(a) && PacksOk(a + b)
    ensures AllUsable(a + b) ==> AllUsable(a)
  {
    hide Record, PackObjectOk;
    assert forall j :: 0 <= j < |a| ==> (a + b)[j] == a[j];
  }

  lemma {:induction false} MembersCount(d: Doc, ms: seq<Member>)
    requires Outside(d) && d.mode.Validate? && !d.done && d.slots == [] && d.entries == 0 && d.schema == 0 && MembersOk(ms)
    ensures var d1 := MembersEffect(d, ms); Counts(d1, AllPacks(ms)) && (d1.failed || d1.schema == Schema(ms))
  {
    hide MemberEffect, Record, SilentOn;
    if |ms| > 0 {
      var front, m := ms[..|ms| - 1], ms[|ms| - 1];
      MembersCount(d, front);
      MembersKeep(d, front);
      var d1 := MembersEffect(d, front);
      if d1.failed {
        UnusableStays(AllPacks(front), PacksOf(m));
      } else {
        MemberCounts(d1, AllPacks(front), m);
      }
    }
  }

  // pw_catalog_validate accepts just the schema 1 catalogues with at least one
  // pack whose packs are all usable.
  lemma ValidatesAll(c: Catalogue)
    requires CatalogueOk(c)
    ensures var t := Final(Validate, [], TextOf(c));
            Usable(t) && t.doc.entries > 0 <==>
              Schema(c.members) == 1 && AllUsable(AllPacks(c.members)) && AllPacks(c.members) != []
  {
    hide Feed, TextOf, MembersEffect, Schema, FeedAll, Record;
    TextMeans(c, Validate, []);
    MembersCount(Root(Validate, []), c.members);
  }

  // ---- the header pass ----

  lemma {:induction false} HeaderPacks(d: Doc, ps: seq<PackObject>)
    requires Among(d) && d.mode.Header? && !d.failed && PacksOk(ps)
    ensures PacksEffect(d, ps) == d
  {
    if |ps| > 0 {
      HeaderPacks(d, ps[..|ps| - 1]);
      FieldsPassed(StartContainer(d, false, '{'), ps[|ps| - 1].fields);
    }
  }

  function VersionOf(f: Field): Option<int>
    requires FieldOk(f)
  {
    if Plain(f.key.name) == "catalog_version" && f.value.Num? && Value(f.value.digits) <= INT64_MAX then
      Some(Int32(Signed(f.value.negative, Value(f.value.digits))))
    else None
  }

  function StampOf(f: Field): Option<string> {
    if Plain(f.key.name) == "generated_at" && f.value.Str? && |f.value.pieces| < STAMP_CAP then Some(Plain(f.value.pieces))
    else None
  }

  // The document's last version that is a number of 64 bits, as an int.
  function Version(ms: seq<Member>): int
    requires MembersOk(ms)
  {
    if |ms| == 0 then 0
    else
      var m := ms[|ms| - 1];
      if m.Plainly? && VersionOf(m.field).Some? then VersionOf(m.field).value else Version(ms[..|ms| - 1])
  }

  // The document's last time stamp that fits.
  function Stamp(ms: seq<Member>): string
    requires MembersOk(ms)
  {
    if |ms| == 0 then ""
    else
      var m := ms[|ms| - 1];
      if m.Plainly? && StampOf(m.field).Some? then StampOf(m.field).value else Stamp(ms[..|ms| - 1])
  }

  lemma HeaderField(d: Doc, f: Field)
    requires Outside(d) && FieldOk(f)
    ensures var d1 := Effect(d, Plain(f.key.name), f.value);
            && d1.version == (if VersionOf(f).Some? then VersionOf(f).value else d.version)
            && d1.stamp == if StampOf(f).Some? then StampOf(f).value else d.stamp
  {
    hide Value, Plain, Int32;
  }

  lemma {:induction false} HeaderMembers(d: Doc, ms: seq<Member>)
    requires Outside(d) && d.mode.Header? && d.schema == 0 && d.version == 0 && d.stamp == "" && MembersOk(ms)
    ensures var d1 := MembersEffect(d, ms);
            !d1.failed && d1.schema == Schema(ms) && d1.version == Version(ms) && d1.stamp == Stamp(ms)
  {
    hide PacksEffect, Effect, Value, Int32, SilentOn, VersionOf, StampOf;
    if |ms| > 0 {
      var front, m := ms[..|ms| - 1], ms[|ms| - 1];
      HeaderMembers(d, front);
      MembersKeep(d, front);
      var d1 := MembersEffect(d, front);
      SchemaLast(front, m);
      match m
      case Plainly(f) =>
        RootField(d1, f);
        HeaderField(d1, f);
      case PackList(_, _, ps, _) =>
        HeaderPacks(StartContainer(d1, true, '['), ps);
      case Other(_, _, _) =>
    }
  }

  lemma SchemaLast(ms: seq<Member>, m: Member)
    requires MembersOk(ms) && MemberOk(m)
    ensures Schema(ms + [m]) == if SilentOn(m) then Schema(ms) else Schema([m])
    ensures !m.Plainly? ==> SilentOn(m)
  {
    hide Value, Int32, Plain;
    assert (ms + [m])[..|ms|] == ms && [m][..0] == [];
  }

  // pw_catalog_read_header: the answer does not depend on the packs, so a broken
  // entry cannot fail it, and the version and the stamp are the document's last.
  lemma HeaderIgnoresPacks(c: Catalogue)
    requires CatalogueOk(c)
    ensures var t := Final(Header, [], TextOf(c));
            && (Usable(t) <==> Schema(c.members) == 1)
            && t.doc.version == Version(c.members) && t.doc.stamp == Stamp(c.members)
  {
    hide Feed, TextOf, MembersEffect, Schema, FeedAll, Version, Stamp;
    TextMeans(c, Header, []);
    HeaderMembers(Root(Header, []), c.members);
  }
}
