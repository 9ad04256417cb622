/**
 Documents in the publishing tool's layout that the device does not read as they
 are meant. Those of schema 1 are such as the tool writes: it refuses a repeated
 id, but two different ids can be kept as one.
 */
module CatalogGaps {
  import opened Bytes
  import opened CatalogIndex
  import opened CatalogText
  import opened CatalogFind
  import opened CatalogNames
  import opened CatalogPrinter
  import opened Options

  const LABEL_CAP := 64

  // An id with an accent, and what the device keeps of it.
  const ACCENT := "\U{e9}"
  const ASCII := "u00e9"

  function Sample(id: string, name: string): PackInfo { PackInfo(id, name, 1, "", 1, 1, "0", "u", "", None) }

  // What the device keeps of the sample with this id and name.
  function Sampled(id: string, name: string): Pack { Pack(id, name, "u", "0", 1, 1, 1, true) }

  function Blank(id: string): Slot { Slot(Some(id), LABEL_CAP, "") }

  lemma AccentKept()
    ensures Kept(ACCENT) == ASCII && !Writable(ACCENT)
    ensures Kept(ASCII) == ASCII && Writable(ASCII)
  {
    assert ACCENT[..0] == [];
    assert Pieces(ACCENT) == [] + Escaped(ACCENT[0]);
    StringRoundTrip(ASCII);
  }

  lemma SampleEntry(id: string, name: string)
    requires Writable(name) && id != "" && |Kept(id)| < ID_CAP && |name| < NAME_CAP
    ensures Entry(Sample(id, name)) == Some(Sampled(Kept(id), name)) && Installable(Sample(id, name))
  {
    hide Kept, Writable;
    assert Writable("0") && Writable("u") by {
      OneWritable('0');
      OneWritable('u');
    }
    StringRoundTrip(name);
    StringRoundTrip("0");
    StringRoundTrip("u");
  }

  lemma OneWritable(c: char)
    requires Short(c)
    ensures Writable([c])
  {}

  // What two blank slots make of one entry.
  lemma TwoSlots(id0: string, id1: string, p: PackObject, id: string, name: string)
    requires PackObjectOk(p) && Record(p) == Some(Sampled(id, name)) && |name| < NAME_CAP
    ensures var slots := [Blank(id0), Blank(id1)];
            && HitsOf(slots, p) == (if id0 == id then 1 else 0) + (if id1 == id then 1 else 0)
            && !Bad(slots, p)
            && (Puts(slots, p, 0) <==> id0 == id && name != "") && (Puts(slots, p, 1) <==> id1 == id && name != "")
            && Seen(p) == Record(p)
  {
    hide FieldsFit, Described, Complete, Record;
    var slots, e := [Blank(id0), Blank(id1)], Sampled(id, name);
    assert HitsFrom(slots, e, 2) == 0 && !TooLongFrom(slots, e, 2);
    assert HitsFrom(slots, e, 1) == (if id1 == id then 1 else 0) && !TooLongFrom(slots, e, 1);
    assert !TooLongFrom(slots, e, 0);
    PutsHits(slots, p, 0);
    PutsHits(slots, p, 1);
  }

  // Three entries whose first two fill both slots.
  lemma ExaminedTwo(slots: seq<Slot>, ps: seq<PackObject>)
    requires |ps| == 3 && PacksOk(ps) && |slots| == 2 && HitsOf(slots, ps[0]) == 1 && HitsOf(slots, ps[1]) == 1
    ensures Examined(slots, ps) == 2 && Total(slots, ps[..2]) == 2
  {
    hide HitsOf, PackObjectOk;
    assert ps[..2][..1] == ps[..1] && ps[..1][..0] == [];
    assert Total(slots, ps[..1]) == 1 && Examined(slots, ps[..1]) == 1;
    assert Total(slots, ps[..2]) == 2 && Examined(slots, ps[..2]) == 2;
  }

  // Both slots after a pass that looks at two entries for the first of them.
  lemma SecondBlank(ps: seq<PackObject>, now: seq<Slot>)
    requires PacksOk(ps) && |ps| == 3 && |now| == 2
    requires Record(ps[0]) == Some(Sampled(ASCII, "A")) && Record(ps[1]) == Some(Sampled(ASCII, "C"))
    requires var slots := [Blank(ASCII), Blank("b")]; SlotIs(slots, ps, 0, now[0]) && SlotIs(slots, ps, 1, now[1])
    ensures var slots := [Blank(ASCII), Blank("b")];
            && Examined(slots, ps) == 2 && Total(slots, ps[..2]) == 2 && !Bad(slots, ps[0]) && !Bad(slots, ps[1])
            && now == [Blank(ASCII).(out := "C"), Blank("b")]
  {
    hide Bad, Puts, Seen, Record, PackObjectOk, Examined, Total, Blank;
    var slots := [Blank(ASCII), Blank("b")];
    assert ASCII != "b";
    TwoSlots(ASCII, "b", ps[0], ASCII, "A");
    TwoSlots(ASCII, "b", ps[1], ASCII, "C");
    ExaminedTwo(slots, ps);
    assert forall k: nat :: PutBy(slots, ps, k, 1) ==> k == 0 || k == 1;
    assert forall k: nat :: PutBy(slots, ps, k, 0) ==> k <= 1;
    assert PutBy(slots, ps, 1, 0);
  }

  // Three packs with three ids.
  const REPEATED := Release(1, "", [Sample(ACCENT, "A"), Sample(ASCII, "C"), Sample("b", "B")], None)

  lemma RepeatedPacks()
    ensures var ps := PrintPacks(REPEATED.packs);
            && |ps| == 3 && PacksOk(ps)
            && Record(ps[0]) == Some(Sampled(ASCII, "A")) && Record(ps[1]) == Some(Sampled(ASCII, "C"))
    ensures forall i :: 0 <= i < 3 ==> Installable(REPEATED.packs[i])
    ensures EntryOf(REPEATED.packs[0]) == Sampled(ASCII, "A") && EntryOf(REPEATED.packs[2]) == Sampled("b", "B")
  {
    ThreeEntries();
    hide Installable, EntryOf, Record, PackObjectOk, PrintPack;
    PrintedPacks(REPEATED.packs);
    assert Entry(REPEATED.packs[1]) == Some(Sampled(ASCII, "C"));
  }

  lemma ThreeEntries()
    ensures Entry(Sample(ACCENT, "A")) == Some(Sampled(ASCII, "A")) && Entry(Sample(ASCII, "C")) == Some(Sampled(ASCII, "C"))
    ensures Entry(Sample("b", "B")) == Some(Sampled("b", "B")) && Kept("b") == "b" && Writable("b")
  {
    AccentKept();
    OneWritable('A');
    OneWritable('B');
    OneWritable('C');
    OneWritable('b');
    StringRoundTrip("b");
    hide Kept, Writable;
    SampleEntry(ACCENT, "A");
    SampleEntry(ASCII, "C");
    SampleEntry("b", "B");
  }

  // One id finds nothing and the other finds the wrong pack; the third finds its own.
  lemma WrongPackFound()
    ensures var text := TextOf(Print(REPEATED));
            && FindIn(text, Some(ACCENT), None) == None
            && FindIn(text, Some(ASCII), None) == Some(Sampled(ASCII, "A"))
            && FindIn(text, Some("b"), None) == Some(Sampled("b", "B"))
  {
    hide TextOf, Print, FindIn, PrintPacks, Installable, EntryOf, FirstMatch, InReach, Kept, Writable;
    AccentKept();
    ThreeEntries();
    RepeatedPacks();
    FoundById(REPEATED, 0);
    LastInReach();
    FoundById(REPEATED, 2);
    ReadsBack(REPEATED, Some(ASCII), None);
    FirstIsAccent();
    assert FirstMatch(REPEATED.packs, Some(ASCII), None, 0);
  }

  lemma LastInReach()
    ensures InReach(REPEATED.packs, 2)
  {
    hide Installable, Kept, Writable, PrintPacks;
    AccentKept();
    ThreeEntries();
    RepeatedPacks();
    assert ASCII != "b";
  }

  lemma FirstIsAccent()
    ensures forall i: nat :: FirstMatch(REPEATED.packs, Some(ASCII), None, i) <==> i == 0
  {
    hide Installable, Kept, PrintPacks;
    AccentKept();
    RepeatedPacks();
    assert Matches(REPEATED.packs[0], Some(ASCII), None);
  }

  // Two ids kept as one bring the count to the number of slots too early: the
  // document is usable and two names are reported, yet slot b stays blank,
  // although the document has the pack.
  lemma TwiceStops()
    ensures var text := TextOf(Print(REPEATED));
            var t := Final(Names, [Blank(ASCII), Blank("b")], text);
            && Usable(t) && t.doc.filled == 2 && t.doc.slots == [Blank(ASCII).(out := "C"), Blank("b")]
            && FindIn(text, Some("b"), None) == Some(Sampled("b", "B"))
  {
    hide Final, TextOf, PrintPacks, AllPacks, Usable, Blank, SlotIs, Bad, Examined, Total, Schema, CatalogueOk, PrintAs, FindIn,
         Installable, EntryOf;
    var slots, c := [Blank(ASCII), Blank("b")], Print(REPEATED);
    Printed(REPEATED, 1);
    PrintedAll(REPEATED, 1);
    RepeatedPacks();
    NamesFilled(c, slots);
    SecondBlank(AllPacks(c.members), Final(Names, slots, TextOf(c)).doc.slots);
    WrongPackFound();
  }

  // Ids that differ and need no numbered escape cannot do that, whatever is asked for.
  lemma DistinctIdsSuffice(r: Release, slots: seq<Slot>)
    requires ReleaseOk(r)
    requires forall i, j :: 0 <= i < j < |r.packs| ==> r.packs[i].id != r.packs[j].id
    requires forall i :: 0 <= i < |r.packs| ==> Writable(r.packs[i].id)
    ensures PacksOk(PrintPacks(r.packs)) && NoRepeat(slots, PrintPacks(r.packs))
  {
    hide Kept, Writable, Installable, Record, PackObjectOk, PrintPack, MatchedTo;
    var ps := PrintPacks(r.packs);
    PrintedPacks(r.packs);
    forall i, j, k | 0 <= i < |slots| && 0 <= j < k < |ps| && HitBy(slots[i], ps[j]) ensures !HitBy(slots[i], ps[k]) {
      StringRoundTrip(r.packs[j].id);
      StringRoundTrip(r.packs[k].id);
    }
  }

  const ONE_PACK := Release(1, "", [Sample("a", "A")], None)

  // A document whose schema is 2 is not usable, which the reader finds out at its
  // end: the name is in the buffer by then.
  lemma SchemaTwoWrites()
    ensures var t := Final(Names, [Blank("a"), Blank("b")], TextOf(PrintAs(ONE_PACK, 2)));
            !Usable(t) && t.doc.slots == [Blank("a").(out := "A"), Blank("b")]
  {
    hide Final, TextOf, PrintPacks, AllPacks, Usable, Blank, SlotIs, Bad, Examined, Total, Schema, CatalogueOk, PrintAs, Installable;
    var slots, c := [Blank("a"), Blank("b")], PrintAs(ONE_PACK, 2);
    Printed(ONE_PACK, 2);
    PrintedAll(ONE_PACK, 2);
    OnePack();
    NamesFilled(c, slots);
    OnePut(AllPacks(c.members), Final(Names, slots, TextOf(c)).doc.slots);
  }

  // A document whose schema is 2^32 + 1 passes as schema 1.
  lemma SchemaWraps()
    ensures var t := Final(Validate, [], TextOf(PrintAs(ONE_PACK, U32 + 1))); Usable(t) && t.doc.entries > 0
  {
    hide Final, TextOf, PrintPacks, Usable, PrintAs, Installable;
    OnePack();
    ValidatesAs(ONE_PACK, U32 + 1);
  }

  lemma OnePack()
    ensures var ps := PrintPacks(ONE_PACK.packs); |ps| == 1 && PacksOk(ps) && Record(ps[0]) == Some(Sampled("a", "A"))
    ensures Installable(ONE_PACK.packs[0])
  {
    OneWritable('a');
    OneWritable('A');
    StringRoundTrip("a");
    hide Installable, Kept, Writable, Record, PackObjectOk, PrintPack;
    SampleEntry("a", "A");
    PrintedPacks(ONE_PACK.packs);
  }

  lemma OnePut(ps: seq<PackObject>, now: seq<Slot>)
    requires PacksOk(ps) && |ps| == 1 && |now| == 2 && Record(ps[0]) == Some(Sampled("a", "A"))
    requires var slots := [Blank("a"), Blank("b")]; SlotIs(slots, ps, 0, now[0]) && SlotIs(slots, ps, 1, now[1])
    ensures now == [Blank("a").(out := "A"), Blank("b")]
  {
    hide Bad, Puts, Seen, Record, PackObjectOk, Blank;
    var slots := [Blank("a"), Blank("b")];
    TwoSlots("a", "b", ps[0], "a", "A");
    assert ps[..0] == [] && Total(slots, ps[..0]) == 0 && Examined(slots, ps[..0]) == 0;
    assert forall k: nat :: PutBy(slots, ps, k, 1) ==> k == 0;
    assert PutBy(slots, ps, 0, 0);
  }
}
