/**
 The names pass of the catalogue reader: several display names in one pass.
 */
module CatalogNames {
  import opened CatalogIndex
  import opened CatalogText
  import opened CatalogFind
  import opened Options

  predicate Hits(slot: Slot, p: Pack) { slot.id == Some(p.id) }

  // The pack's name does not fit the caller's buffer.
  predicate TooLong(slot: Slot, p: Pack) { Hits(slot, p) && p.name != "" && |p.name| >= slot.cap }

  function Named(slot: Slot, p: Pack): Slot {
    if Hits(slot, p) && p.name != "" then slot.(out := p.name) else slot
  }

  // The slots once the loop over them has run from slot i on: it stops at the
  // first buffer that is too small.
  function WrittenFrom(slots: seq<Slot>, p: Pack, i: nat): (r: seq<Slot>)
    requires i <= |slots|
    ensures |r| == |slots|
    decreases |slots| - i
  {
    if i == |slots| || TooLong(slots[i], p) then slots else WrittenFrom(slots[i := Named(slots[i], p)], p, i + 1)
  }

  function HitsFrom(slots: seq<Slot>, p: Pack, i: nat): nat
    requires i <= |slots|
    decreases |slots| - i
  {
    if i == |slots| then 0 else (if Hits(slots[i], p) then 1 else 0) + HitsFrom(slots, p, i + 1)
  }

  predicate TooLongFrom(slots: seq<Slot>, p: Pack, i: nat)
    requires i <= |slots|
    decreases |slots| - i
  {
    i < |slots| && (TooLong(slots[i], p) || TooLongFrom(slots, p, i + 1))
  }

  // The same slots but for what their buffers hold.
  predicate SameSlots(a: seq<Slot>, b: seq<Slot>) {
    |a| == |b| && forall i :: 0 <= i < |a| ==> a[i].id == b[i].id && a[i].cap == b[i].cap
  }

  // ---- one pack ----

  // What the loop over the slots does from slot i on.
  lemma {:induction false} FillSlotsMeans(d: Doc, p: Pack, i: nat)
    requires i <= |d.slots|
    ensures var r := FillSlots(d, p, i);
            && r.slots == WrittenFrom(d.slots, p, i)
            && (r.failed <==> d.failed || TooLongFrom(d.slots, p, i))
            && (!TooLongFrom(d.slots, p, i) ==> r == Filled(d, r.slots, HitsFrom(d.slots, p, i)))
    decreases |d.slots| - i
  {
    hide FillSlots, Named, SameSlots, Hits, TooLong, Filled;
    FillStep(d, p, i);
    if i == |d.slots| {
      FilledNone(d);
    } else {
      NamedStep(d.slots, p, i);
      if !Hits(d.slots[i], p) {
        FillSlotsMeans(d, p, i + 1);
      } else if !TooLong(d.slots[i], p) {
        var d1 := OneFilled(d, p, i);
        FillSlotsMeans(d1, p, i + 1);
        OneMore(d, p, i, FillSlots(d, p, i).slots, HitsFrom(d1.slots, p, i + 1));
        HitsElsewhere(d.slots, d1.slots, p, i + 1);
      }
    }
  }

  // The document after so many more slots were filled.
  function Filled(d: Doc, slots: seq<Slot>, hits: nat): Doc {
    var n := d.filled + hits;
    d.(slots := slots, filled := n, done := d.done || d.filled < |d.slots| <= n)
  }

  lemma FilledNone(d: Doc)
    ensures Filled(d, d.slots, 0) == d
  {}

  lemma OneMore(d: Doc, p: Pack, i: nat, slots: seq<Slot>, hits: nat)
    requires i < |d.slots|
    ensures Filled(OneFilled(d, p, i), slots, hits) == Filled(d, slots, 1 + hits)
  {
    hide Named;
  }

  lemma NamedStep(slots: seq<Slot>, p: Pack, i: nat)
    requires i < |slots|
    ensures SameSlots(slots, slots[i := Named(slots[i], p)])
    ensures !Hits(slots[i], p) ==> slots[i := Named(slots[i], p)] == slots && !TooLong(slots[i], p)
  {}

  // One slot filled.
  function OneFilled(d: Doc, p: Pack, i: nat): Doc
    requires i < |d.slots|
  {
    var n := d.filled + 1;
    d.(slots := d.slots[i := Named(d.slots[i], p)], filled := n, done := d.done || n == |d.slots|)
  }

  lemma FillStep(d: Doc, p: Pack, i: nat)
    requires i <= |d.slots|
    ensures FillSlots(d, p, i) ==
            if i == |d.slots| then d
            else if !Hits(d.slots[i], p) then FillSlots(d, p, i + 1)
            else if TooLong(d.slots[i], p) then d.(failed := true)
            else FillSlots(OneFilled(d, p, i), p, i + 1)
  {}

  lemma {:induction false} HitsElsewhere(a: seq<Slot>, b: seq<Slot>, p: Pack, i: nat)
    requires SameSlots(a, b) && i <= |a|
    ensures HitsFrom(a, p, i) == HitsFrom(b, p, i) && TooLongFrom(a, p, i) == TooLongFrom(b, p, i)
    decreases |a| - i
  {
    if i < |a| {
      HitsElsewhere(a, b, p, i + 1);
    }
  }

  // What the loop leaves in slot j.
  lemma {:induction false} WrittenAt(slots: seq<Slot>, p: Pack, i: nat, j: nat)
    requires i <= |slots| && j < |slots|
    ensures WrittenFrom(slots, p, i)[j] ==
            if i <= j && (forall l :: i <= l <= j ==> !TooLong(slots[l], p)) then Named(slots[j], p) else slots[j]
    decreases |slots| - i
  {
    hide TooLong, Named;
    if i < |slots| && !TooLong(slots[i], p) {
      var next := slots[i := Named(slots[i], p)];
      WrittenAt(next, p, i + 1, j);
      assert forall l :: i < l < |slots| ==> next[l] == slots[l];
    } else {
      assert i < |slots| ==> TooLong(slots[i], p);
    }
  }

  lemma WrittenKeeps(slots: seq<Slot>, p: Pack)
    ensures SameSlots(slots, WrittenFrom(slots, p, 0))
  {
    hide TooLong, WrittenFrom;
    forall j | 0 <= j < |slots| ensures var w := WrittenFrom(slots, p, 0)[j]; w.id == slots[j].id && w.cap == slots[j].cap {
      WrittenAt(slots, p, 0, j);
    }
  }

  lemma {:induction false} TooLongAt(slots: seq<Slot>, p: Pack, i: nat)
    requires i <= |slots|
    ensures TooLongFrom(slots, p, i) <==> exists j :: i <= j < |slots| && TooLong(slots[j], p)
    decreases |slots| - i
  {
    hide TooLong;
    if i < |slots| {
      TooLongAt(slots, p, i + 1);
    }
  }

  // ---- the pass over the packs ----

  // The entry the slots are filled from when the object closes. A string that is
  // too long fails the reader only at the bracket, which still closes the entry.
  function Seen(p: PackObject): Option<Pack>
    requires PackObjectOk(p)
  {
    var n := |p.fields|;
    if FieldsFit(p.fields) then Record(p)
    else if n > 0 && p.fields[n - 1].value.Str? && FieldsFit(p.fields[..n - 1]) && Complete(Described(p.fields[..n - 1])) then
      Some(Described(p.fields[..n - 1]).(complete := true))
    else None
  }

  function Written(slots: seq<Slot>, p: PackObject): (r: seq<Slot>)
    requires PackObjectOk(p)
    ensures |r| == |slots|
  {
    if Seen(p).Some? then WrittenFrom(slots, Seen(p).value, 0) else slots
  }

  // How many slots ask for the pack.
  function HitsOf(slots: seq<Slot>, p: PackObject): nat
    requires PackObjectOk(p)
  {
    if Record(p).Some? then HitsFrom(slots, Record(p).value, 0) else 0
  }

  // The device cannot install from the entry, or its name is too long for a slot.
  predicate Bad(slots: seq<Slot>, p: PackObject)
    requires PackObjectOk(p)
  {
    Record(p).None? || TooLongFrom(slots, Record(p).value, 0)
  }

  datatype Pass = Pass(slots: seq<Slot>, filled: nat, failed: bool)

  predicate Over(a: Pass) { a.failed || a.filled >= |a.slots| }

  function PassOne(a: Pass, p: PackObject): (r: Pass)
    requires PackObjectOk(p)
    ensures |r.slots| == |a.slots|
  {
    if Over(a) then a else Pass(Written(a.slots, p), a.filled + HitsOf(a.slots, p), Bad(a.slots, p))
  }

  function PassAll(a: Pass, ps: seq<PackObject>): (r: Pass)
    requires PacksOk(ps)
    ensures |r.slots| == |a.slots|
  {
    if |ps| == 0 then a else PassOne(PassAll(a, ps[..|ps| - 1]), ps[|ps| - 1])
  }

  lemma {:induction false} PassConcat(a: Pass, ps: seq<PackObject>, qs: seq<PackObject>)
    requires PacksOk(ps) && PacksOk(qs) && PacksOk(ps + qs)
    ensures PassAll(a, ps + qs) == PassAll(PassAll(a, ps), qs)
  {
    hide PassOne, PackObjectOk;
    if |qs| == 0 {
      assert ps + qs == ps;
    } else {
      PassConcat(a, ps, qs[..|qs| - 1]);
      assert (ps + qs)[..|ps + qs| - 1] == ps + qs[..|qs| - 1];
    }
  }

  // The document is where the pass is.
  predicate Filling(d: Doc, a: Pass) {
    && d.slots == a.slots && d.failed == a.failed
    && (!a.failed ==> d.filled == a.filled && (d.done <==> a.filled >= |a.slots|))
  }

  lemma EntryFills(d: Doc, p: PackObject)
    requires Among(d) && d.mode.Names? && !d.failed && !d.done && PackObjectOk(p)
    ensures var d1 := PackEffect(d, p);
            && d1.slots == Written(d.slots, p)
            && (d1.failed <==> Bad(d.slots, p))
            && (!d1.failed ==> d1 == d.(pack := d1.pack, entries := d1.entries, slots := d1.slots,
                                        filled := d.filled + HitsOf(d.slots, p),
                                        done := d.filled < |d.slots| <= d.filled + HitsOf(d.slots, p)))
  {
    hide FieldsEffect, Described, FieldsFit, FillSlots, WrittenFrom, HitsFrom, TooLongFrom, Complete;
    var d0, n := StartContainer(d, false, '{'), |p.fields|;
    FieldsDescribe(d0, p.fields);
    if n > 0 {
      FieldsDescribe(d0, p.fields[..n - 1]);
    }
    NoFields();
    var d1 := FieldsEffect(d0, p.fields);
    var e := d1.(depth := 2, inPack := false, pack := d1.pack.(complete := true), entries := d1.entries + 1);
    FillSlotsMeans(e, e.pack, 0);
  }

  lemma NoFields()
    ensures FieldsFit([])
  {}

  lemma PackFills(d: Doc, a: Pass, p: PackObject)
    requires Among(d) && d.mode.Names? && !d.failed && Filling(d, a) && PackObjectOk(p)
    ensures var d1 := PackEffect(d, p); Filling(d1, PassOne(a, p)) && (d1.failed || d1.schema == d.schema)
  {
    hide FieldsEffect, Written, HitsOf, Bad, Closing;
    if d.done {
      DonePasses(d, p);
    } else {
      EntryFills(d, p);
    }
  }

  lemma DonePasses(d: Doc, p: PackObject)
    requires Among(d) && d.mode.Names? && !d.failed && d.done && PackObjectOk(p)
    ensures PackEffect(d, p) == d
  {
    hide FieldsEffect, EndsInString;
    FieldsPassed(StartContainer(d, false, '{'), p.fields);
  }

  lemma {:induction false} PacksFill(d: Doc, a: Pass, ps: seq<PackObject>)
    requires Among(d) && d.mode.Names? && !d.failed && Filling(d, a) && PacksOk(ps)
    ensures var d1 := PacksEffect(d, ps); Filling(d1, PassAll(a, ps)) && (d1.failed || d1.schema == d.schema)
  {
    hide PackEffect, PackObjectOk;
    if |ps| > 0 {
      var front, p := ps[..|ps| - 1], ps[|ps| - 1];
      PacksFill(d, a, front);
      PacksKeep(d, front);
      var d1 := PacksEffect(d, front);
      if !d1.failed {
        PackFills(d1, PassAll(a, front), p);
      }
    }
  }

  lemma MemberFills(d: Doc, a: Pass, m: Member)
    requires Outside(d) && d.mode.Names? && Filling(d, a) && MemberOk(m)
    ensures var d1 := MemberEffect(d, m);
            Filling(d1, PassAll(a, PacksOf(m))) && (d1.failed || d1.schema == if SilentOn(m) then d.schema else Schema([m]))
  {
    hide PacksEffect, Effect, Record, Value, Int32, PassOne;
    assert [m][..0] == [];
    match m
    case Plainly(f) => RootField(d, f);
    case PackList(_, _, ps, _) =>
      PacksFill(StartContainer(d, true, '['), a, ps);
      PacksKeep(StartContainer(d, true, '['), ps);
    case Other(_, _, _) =>
  }

  lemma {:induction false} MembersFill(d: Doc, a: Pass, ms: seq<Member>)
    requires Outside(d) && d.mode.Names? && Filling(d, a) && d.schema == 0 && MembersOk(ms)
    ensures var d1 := MembersEffect(d, ms);
            Filling(d1, PassAll(a, AllPacks(ms))) && (d1.failed || d1.schema == Schema(ms))
  {
    hide MemberEffect, SilentOn, MemberOk, PackObjectOk, PassOne;
    if |ms| > 0 {
      var front, m := ms[..|ms| - 1], ms[|ms| - 1];
      MembersFill(d, a, front);
      MembersKeep(d, front);
      PassConcat(a, AllPacks(front), PacksOf(m));
      var d1 := MembersEffect(d, front);
      if d1.failed {
        PassFailed(PassAll(a, AllPacks(front)), PacksOf(m));
      } else {
        MemberFills(d1, PassAll(a, AllPacks(front)), m);
      }
    }
  }

  lemma {:induction false} PassFailed(a: Pass, ps: seq<PackObject>)
    requires PacksOk(ps) && a.failed
    ensures PassAll(a, ps) == a
  {
    if |ps| > 0 {
      PassFailed(a, ps[..|ps| - 1]);
    }
  }

  // ---- what the pass amounts to ----

  // The slots the packs are asked for by, each counted as often as it is.
  function Total(slots: seq<Slot>, ps: seq<PackObject>): nat
    requires PacksOk(ps)
  {
    if |ps| == 0 then 0 else Total(slots, ps[..|ps| - 1]) + HitsOf(slots, ps[|ps| - 1])
  }

  // How many packs are looked at: up to the one that brings the total to the number of slots.
  function Examined(slots: seq<Slot>, ps: seq<PackObject>): (m: nat)
    requires PacksOk(ps)
    ensures m <= |ps|
  {
    if |ps| == 0 then 0
    else
      var front := ps[..|ps| - 1];
      var m := Examined(slots, front);
      if m == |front| && Total(slots, front) < |slots| then |ps| else m
  }

  lemma {:induction false} ExaminedMeaning(slots: seq<Slot>, ps: seq<PackObject>)
    requires PacksOk(ps)
    ensures var m := Examined(slots, ps);
            && (forall k :: 0 <= k < m ==> Total(slots, ps[..k]) < |slots|)
            && (m < |ps| ==> Total(slots, ps[..m]) >= |slots|)
  {
    hide Total, PackObjectOk;
    if |ps| > 0 {
      var front := ps[..|ps| - 1];
      ExaminedMeaning(slots, front);
      assert forall k :: 0 <= k <= |front| ==> front[..k] == ps[..k];
    }
  }

  // The pack is looked at, and no entry before it has failed the reader.
  predicate Reached(slots: seq<Slot>, ps: seq<PackObject>, k: nat)
    requires PacksOk(ps)
  {
    k < Examined(slots, ps) && forall j :: 0 <= j < k ==> !Bad(slots, ps[j])
  }

  // The pack's name is put into slot i.
  predicate Puts(slots: seq<Slot>, p: PackObject, i: nat)
    requires PackObjectOk(p) && i < |slots|
  {
    && Seen(p).Some? && Hits(slots[i], Seen(p).value) && Seen(p).value.name != ""
    && forall j :: 0 <= j <= i ==> !TooLong(slots[j], Seen(p).value)
  }

  predicate PutBy(slots: seq<Slot>, ps: seq<PackObject>, k: nat, i: nat)
    requires PacksOk(ps) && i < |slots|
  {
    Reached(slots, ps, k) && Puts(slots, ps[k], i)
  }

  // Slot i holds the name put there last, or what it held before.
  ghost predicate SlotIs(slots: seq<Slot>, ps: seq<PackObject>, i: nat, slot: Slot)
    requires PacksOk(ps) && i < |slots|
  {
    && ((forall k: nat :: !PutBy(slots, ps, k, i)) ==> slot == slots[i])
    && (forall k: nat :: PutBy(slots, ps, k, i) && (forall j: nat :: j > k ==> !PutBy(slots, ps, j, i)) ==>
          slot == slots[i].(out := Seen(ps[k]).value.name))
  }

  ghost predicate Result(slots: seq<Slot>, ps: seq<PackObject>, a: Pass)
    requires PacksOk(ps)
  {
    var m := Examined(slots, ps);
    && SameSlots(slots, a.slots)
    && (a.failed <==> exists k :: 0 <= k < m && Bad(slots, ps[k]))
    && (!a.failed ==> a.filled == Total(slots, ps[..m]))
    && forall i :: 0 <= i < |slots| ==> SlotIs(slots, ps, i, a.slots[i])
  }

  lemma WrittenSlot(slots: seq<Slot>, now: seq<Slot>, p: PackObject, i: nat)
    requires PackObjectOk(p) && SameSlots(slots, now) && i < |slots|
    ensures Written(now, p)[i] == if Puts(slots, p, i) then now[i].(out := Seen(p).value.name) else now[i]
  {
    hide Seen, WrittenFrom;
    if Seen(p).Some? {
      WrittenAt(now, Seen(p).value, 0, i);
    }
  }

  lemma WrittenSame(slots: seq<Slot>, now: seq<Slot>, p: PackObject)
    requires PackObjectOk(p) && SameSlots(slots, now)
    ensures SameSlots(slots, Written(now, p)) && HitsOf(now, p) == HitsOf(slots, p) && Bad(now, p) == Bad(slots, p)
  {
    hide Seen, Record, WrittenFrom, HitsFrom, TooLongFrom;
    if Seen(p).Some? {
      WrittenKeeps(now, Seen(p).value);
    }
    if Record(p).Some? {
      HitsElsewhere(now, slots, Record(p).value, 0);
    }
  }

  // One more pack that is not looked at.
  lemma ReachedOn(slots: seq<Slot>, ps: seq<PackObject>, p: PackObject)
    requires PacksOk(ps) && PackObjectOk(p) && PacksOk(ps + [p])
    ensures var m := Examined(slots, ps);
            Examined(slots, ps + [p]) == if m == |ps| && Total(slots, ps) < |slots| then |ps| + 1 else m
    ensures forall k: nat :: k < |ps| ==> (Reached(slots, ps + [p], k) <==> Reached(slots, ps, k))
    ensures forall k: nat :: k > |ps| ==> !Reached(slots, ps + [p], k)
    ensures !Reached(slots, ps, |ps|)
  {
    hide Total, Bad, PackObjectOk;
    assert (ps + [p])[..|ps|] == ps;
  }

  lemma SlotStep(slots: seq<Slot>, ps: seq<PackObject>, p: PackObject, i: nat, slot: Slot)
    requires PacksOk(ps) && PackObjectOk(p) && PacksOk(ps + [p]) && i < |slots| && SlotIs(slots, ps, i, slot)
    requires slot.id == slots[i].id && slot.cap == slots[i].cap
    ensures var put := Reached(slots, ps + [p], |ps|) && Puts(slots, p, i);
            SlotIs(slots, ps + [p], i, if put then slot.(out := Seen(p).value.name) else slot)
  {
    ReachedOn(slots, ps, p);
    hide Reached, Puts, PackObjectOk, Seen, SlotIs;
    var qs := ps + [p];
    assert qs[|ps|] == p && forall k: nat :: k < |ps| ==> qs[k] == ps[k];
    forall k: nat ensures PutBy(slots, qs, k, i) <==>
                          if k == |ps| then Reached(slots, qs, k) && Puts(slots, p, i) else PutBy(slots, ps, k, i)
    {}
    SlotPut(slots, ps, qs, i, slot);
  }

  // If the pack at the end is put into the slot, no other is put there later.
  lemma SlotPut(slots: seq<Slot>, ps: seq<PackObject>, qs: seq<PackObject>, i: nat, slot: Slot)
    requires PacksOk(ps) && PacksOk(qs) && i < |slots| && SlotIs(slots, ps, i, slot) && |qs| == |ps| + 1
    requires forall k: nat :: k < |ps| ==> qs[k] == ps[k]
    requires slot.id == slots[i].id && slot.cap == slots[i].cap
    requires forall k: nat :: k != |ps| ==> (PutBy(slots, qs, k, i) <==> PutBy(slots, ps, k, i))
    ensures SlotIs(slots, qs, i, if PutBy(slots, qs, |ps|, i) then slot.(out := Seen(qs[|ps|]).value.name) else slot)
  {
    forall k: nat | k >= |ps| ensures !PutBy(slots, ps, k, i) {}
    forall k: nat | k > |ps| ensures !PutBy(slots, qs, k, i) {}
    hide PutBy, PackObjectOk, Seen;
  }

  lemma {:induction false} PassResult(slots: seq<Slot>, ps: seq<PackObject>)
    requires PacksOk(ps)
    ensures |slots| > 0 ==> Result(slots, ps, PassAll(Pass(slots, 0, false), ps))
  {
    if |ps| > 0 && |slots| > 0 {
      hide PackObjectOk, SlotIs, Bad, PassOne, Total, Examined;
      var front, p := ps[..|ps| - 1], ps[|ps| - 1];
      PassResult(slots, front);
      assert ps == front + [p];
      ResultStep(slots, front, p, PassAll(Pass(slots, 0, false), front));
    }
  }

  lemma ResultStep(slots: seq<Slot>, ps: seq<PackObject>, p: PackObject, a: Pass)
    requires PacksOk(ps) && PackObjectOk(p) && PacksOk(ps + [p]) && Result(slots, ps, a)
    ensures Result(slots, ps + [p], PassOne(a, p))
  {
    hide PackObjectOk, SlotIs, Bad, Total, Examined, Puts, HitsOf, Written, Seen;
    var qs, b, m := ps + [p], PassOne(a, p), Examined(slots, ps);
    ReachedOn(slots, ps, p);
    ExaminedMeaning(slots, ps);
    WrittenSame(slots, a.slots, p);
    assert forall k :: 0 <= k < |ps| ==> qs[k] == ps[k];
    assert qs[..|ps|] == ps && ps[..|ps|] == ps && qs[..m] == ps[..m] && qs[..|qs|] == qs;
    TotalStep(slots, ps, p);
    assert Reached(slots, qs, |ps|) <==> !Over(a) by {
      if m == |ps| && Total(slots, ps) < |slots| {
        assert (forall j :: 0 <= j < |ps| ==> !Bad(slots, qs[j])) <==> !a.failed;
      }
    }
    assert b.failed <==> exists k :: 0 <= k < Examined(slots, qs) && Bad(slots, qs[k]) by {
      if !Over(a) {
        assert qs[|ps|] == p && forall k :: 0 <= k < |ps| ==> !Bad(slots, qs[k]);
      } else if a.failed {
        var k :| 0 <= k < m && Bad(slots, ps[k]);
        assert Bad(slots, qs[k]);
      }
    }
    forall i | 0 <= i < |slots| ensures SlotIs(slots, qs, i, b.slots[i]) {
      SlotStep(slots, ps, p, i, a.slots[i]);
      WrittenSlot(slots, a.slots, p, i);
    }
  }

  lemma TotalStep(slots: seq<Slot>, ps: seq<PackObject>, p: PackObject)
    requires PacksOk(ps) && PackObjectOk(p) && PacksOk(ps + [p])
    ensures Total(slots, ps + [p]) == Total(slots, ps) + HitsOf(slots, p)
  {
    hide HitsOf;
    assert (ps + [p])[..|ps|] == ps;
  }

  // pw_catalog_names on any text of any catalogue: when its answer counts, what
  // it counts, and what every slot holds then, usable document or not.
  lemma NamesFilled(c: Catalogue, slots: seq<Slot>)
    requires CatalogueOk(c) && |slots| > 0
    ensures var t, ps := Final(Names, slots, TextOf(c)), AllPacks(c.members);
            var m := Examined(slots, ps);
            && (Usable(t) <==> Schema(c.members) == 1 && forall k :: 0 <= k < m ==> !Bad(slots, ps[k]))
            && (Usable(t) ==> t.doc.filled == Total(slots, ps[..m]))
            && SameSlots(slots, t.doc.slots) && forall i :: 0 <= i < |slots| ==> SlotIs(slots, ps, i, t.doc.slots[i])
  {
    hide Feed, TextOf, MembersEffect, Schema, FeedAll, Bad, SlotIs, Total, Examined, PassOne;
    TextMeans(c, Names, slots);
    MembersFill(Root(Names, slots), Pass(slots, 0, false), c.members);
    PassResult(slots, AllPacks(c.members));
  }

  // ---- when the answer is right ----

  predicate HitBy(slot: Slot, p: PackObject)
    requires PackObjectOk(p)
  {
    Record(p).Some? && Hits(slot, Record(p).value)
  }

  // The slot asks for a pack of the list.
  predicate Matched(slot: Slot, ps: seq<PackObject>)
    requires PacksOk(ps)
  {
    exists k :: 0 <= k < |ps| && HitBy(slot, ps[k])
  }

  // How many of the first n slots ask for a pack of the list.
  function MatchedTo(slots: seq<Slot>, ps: seq<PackObject>, n: nat): (r: nat)
    requires n <= |slots| && PacksOk(ps)
    ensures r <= n
  {
    if n == 0 then 0 else MatchedTo(slots, ps, n - 1) + if Matched(slots[n - 1], ps) then 1 else 0
  }

  // No pack that a slot asks for is listed twice.
  predicate Once(slots: seq<Slot>, ps: seq<PackObject>)
    requires PacksOk(ps)
  {
    forall i, j, k :: 0 <= i < |slots| && 0 <= j < k < |ps| && HitBy(slots[i], ps[j]) ==> !HitBy(slots[i], ps[k])
  }

  // No pack that a slot asks for is listed again before every slot has its pack.
  predicate NoRepeat(slots: seq<Slot>, ps: seq<PackObject>)
    requires PacksOk(ps)
  {
    forall i, j, k :: 0 <= i < |slots| && 0 <= j < k < |ps| && HitBy(slots[i], ps[j]) && HitBy(slots[i], ps[k]) ==>
                        MatchedTo(slots, ps[..k], |slots|) == |slots|
  }

  // The count is that of the slots which ask for a listed pack, and each of
  // these was given one.
  predicate Right(slots: seq<Slot>, ps: seq<PackObject>, filled: nat)
    requires PacksOk(ps)
  {
    && filled == MatchedTo(slots, ps, |slots|)
    && forall i :: 0 <= i < |slots| && Matched(slots[i], ps) ==> Matched(slots[i], ps[..Examined(slots, ps)])
  }

  lemma MatchedSnoc(slot: Slot, ps: seq<PackObject>, p: PackObject)
    requires PacksOk(ps) && PackObjectOk(p) && PacksOk(ps + [p])
    ensures Matched(slot, ps + [p]) <==> Matched(slot, ps) || HitBy(slot, p)
  {
    hide HitBy, PackObjectOk;
    var all := ps + [p];
    assert forall k :: 0 <= k < |ps| ==> all[k] == ps[k];
    assert all[|ps|] == p;
  }

  function HitsRest(slots: seq<Slot>, p: PackObject, n: nat): nat
    requires PackObjectOk(p) && n <= |slots|
  {
    if Record(p).Some? then HitsFrom(slots, Record(p).value, n) else 0
  }

  // One more pack adds its slots to the count, less those that have one.
  lemma {:induction false} MatchedGrows(slots: seq<Slot>, ps: seq<PackObject>, p: PackObject, n: nat)
    requires n <= |slots| && PacksOk(ps) && PackObjectOk(p) && PacksOk(ps + [p])
    ensures var a, b := MatchedTo(slots, ps + [p], n) + HitsRest(slots, p, n), MatchedTo(slots, ps, n) + HitsOf(slots, p);
            a <= b && (a == b <==> forall i :: 0 <= i < n && HitBy(slots[i], p) ==> !Matched(slots[i], ps))
  {
    hide Matched, Record, PackObjectOk, Hits;
    if n > 0 {
      MatchedGrows(slots, ps, p, n - 1);
      MatchedSnoc(slots[n - 1], ps, p);
    }
  }

  lemma RestEnds(slots: seq<Slot>, p: PackObject)
    requires PackObjectOk(p)
    ensures HitsRest(slots, p, |slots|) == 0
  {}

  lemma OnceStep(slots: seq<Slot>, ps: seq<PackObject>, p: PackObject)
    requires PacksOk(ps) && PackObjectOk(p) && PacksOk(ps + [p])
    ensures Once(slots, ps + [p]) <==>
              Once(slots, ps) && forall i :: 0 <= i < |slots| && HitBy(slots[i], p) ==> !Matched(slots[i], ps)
  {
    hide HitBy, PackObjectOk;
    var all := ps + [p];
    assert all[|ps|] == p && forall k :: 0 <= k < |ps| ==> all[k] == ps[k];
    if Once(slots, all) {
      assert forall i, k :: 0 <= i < |slots| && 0 <= k < |ps| && HitBy(slots[i], all[k]) ==> !HitBy(slots[i], all[|ps|]);
    }
  }

  // The total is the count of slots with a pack just when no slot is counted twice.
  lemma {:induction false} TotalMatched(slots: seq<Slot>, ps: seq<PackObject>)
    requires PacksOk(ps)
    ensures MatchedTo(slots, ps, |slots|) <= Total(slots, ps)
    ensures MatchedTo(slots, ps, |slots|) == Total(slots, ps) <==> Once(slots, ps)
  {
    if |ps| == 0 {
      NothingMatched(slots, |slots|);
    } else {
      hide HitBy, HitsOf, PackObjectOk, Once, MatchedTo, HitsRest, Matched;
      var front, p := ps[..|ps| - 1], ps[|ps| - 1];
      assert ps == front + [p];
      TotalMatched(slots, front);
      MatchedGrows(slots, front, p, |slots|);
      RestEnds(slots, p);
      OnceStep(slots, front, p);
    }
  }

  lemma {:induction false} NothingMatched(slots: seq<Slot>, n: nat)
    requires n <= |slots|
    ensures MatchedTo(slots, [], n) == 0
  {
    if n > 0 {
      NothingMatched(slots, n - 1);
    }
  }

  lemma MatchedFront(slot: Slot, ps: seq<PackObject>, m: nat)
    requires PacksOk(ps) && m <= |ps|
    ensures Matched(slot, ps[..m]) ==> Matched(slot, ps)
  {
    hide HitBy, PackObjectOk;
    assert forall k :: 0 <= k < m ==> ps[..m][k] == ps[k];
  }

  lemma {:induction false} FrontCounts(slots: seq<Slot>, ps: seq<PackObject>, m: nat, n: nat)
    requires n <= |slots| && PacksOk(ps) && m <= |ps|
    ensures var a, b := MatchedTo(slots, ps[..m], n), MatchedTo(slots, ps, n);
            a <= b && (a == b <==> forall i :: 0 <= i < n && Matched(slots[i], ps) ==> Matched(slots[i], ps[..m]))
  {
    hide Matched, PackObjectOk;
    if n > 0 {
      FrontCounts(slots, ps, m, n - 1);
      MatchedFront(slots[n - 1], ps, m);
    }
  }

  // A pack asked for twice among those looked at would have ended the pass.
  lemma NoneTwice(slots: seq<Slot>, ps: seq<PackObject>)
    requires PacksOk(ps) && NoRepeat(slots, ps)
    ensures Once(slots, ps[..Examined(slots, ps)])
  {
    hide HitBy, PackObjectOk, Total, MatchedTo, Examined;
    var m := Examined(slots, ps);
    ExaminedMeaning(slots, ps);
    var front := ps[..m];
    forall i, j, k | 0 <= i < |slots| && 0 <= j < k < |front| && HitBy(slots[i], front[j]) ensures !HitBy(slots[i], front[k]) {
      assert front[j] == ps[j] && front[k] == ps[k];
      TotalMatched(slots, ps[..k]);
    }
  }

  lemma RepeatLate(slots: seq<Slot>, ps: seq<PackObject>)
    requires PacksOk(ps) && var m := Examined(slots, ps); Once(slots, ps[..m]) && (m < |ps| ==> MatchedTo(slots, ps[..m], |slots|) == |slots|)
    ensures NoRepeat(slots, ps)
  {
    hide HitBy, PackObjectOk, MatchedTo, Examined;
    var m := Examined(slots, ps);
    var front := ps[..m];
    assert forall j :: 0 <= j < m ==> front[j] == ps[j];
    forall i, j, k | 0 <= i < |slots| && 0 <= j < k < |ps| && HitBy(slots[i], ps[j]) && HitBy(slots[i], ps[k])
      ensures MatchedTo(slots, ps[..k], |slots|) == |slots|
    {
      if k >= m {
        assert ps[..k][..m] == front;
        FrontCounts(slots, ps[..k], m, |slots|);
      }
    }
  }

  // The answer is right just when no pack that a slot asks for is listed again
  // before every slot has its pack.
  lemma RightMeans(slots: seq<Slot>, ps: seq<PackObject>)
    requires PacksOk(ps)
    ensures Right(slots, ps, Total(slots, ps[..Examined(slots, ps)])) <==> NoRepeat(slots, ps)
  {
    hide HitBy, PackObjectOk, Total, MatchedTo, Examined, Once, NoRepeat, Matched;
    var m := Examined(slots, ps);
    assert m == |ps| ==> ps[..m] == ps;
    ExaminedMeaning(slots, ps);
    TotalMatched(slots, ps[..m]);
    FrontCounts(slots, ps, m, |slots|);
    if NoRepeat(slots, ps) {
      NoneTwice(slots, ps);
    }
    if Right(slots, ps, Total(slots, ps[..m])) {
      RepeatLate(slots, ps);
    }
  }

  // A name put into a slot by an entry that is not bad is that of a pack it asks for.
  lemma PutsHits(slots: seq<Slot>, p: PackObject, i: nat)
    requires PackObjectOk(p) && i < |slots| && !Bad(slots, p)
    ensures Puts(slots, p, i) <==> HitBy(slots[i], p) && Record(p).value.name != ""
    ensures Seen(p) == Record(p)
  {
    hide Described, FieldsFit, Complete;
    TooLongAt(slots, Record(p).value, 0);
  }

  // What slot i holds after a pass without a bad entry.
  lemma SlotHolds(slots: seq<Slot>, ps: seq<PackObject>, i: nat, slot: Slot)
    requires PacksOk(ps) && i < |slots| && SlotIs(slots, ps, i, slot)
    requires forall k :: 0 <= k < Examined(slots, ps) ==> !Bad(slots, ps[k])
    ensures !Matched(slots[i], ps) ==> slot == slots[i]
    ensures NoRepeat(slots, ps) ==> forall k :: 0 <= k < |ps| && HitBy(slots[i], ps[k]) && !Matched(slots[i], ps[..k]) ==>
                                      slot == Named(slots[i], Record(ps[k]).value)
  {
    hide PackObjectOk, Bad, Examined, Puts, Record, Seen, NoRepeat, Hits;
    var m := Examined(slots, ps);
    forall k: nat | k < m ensures Puts(slots, ps[k], i) <==> HitBy(slots[i], ps[k]) && Record(ps[k]).value.name != "" {
      PutsHits(slots, ps[k], i);
    }
    if NoRepeat(slots, ps) {
      RightMeans(slots, ps);
      NoneTwice(slots, ps);
      forall k | 0 <= k < |ps| && HitBy(slots[i], ps[k]) && !Matched(slots[i], ps[..k])
        ensures slot == Named(slots[i], Record(ps[k]).value)
      {
        FirstHolds(slots, ps, i, slot, k);
      }
    }
  }

  lemma FirstHolds(slots: seq<Slot>, ps: seq<PackObject>, i: nat, slot: Slot, k: nat)
    requires PacksOk(ps) && i < |slots| && SlotIs(slots, ps, i, slot)
    requires forall k :: 0 <= k < Examined(slots, ps) ==> !Bad(slots, ps[k])
    requires Right(slots, ps, Total(slots, ps[..Examined(slots, ps)])) && Once(slots, ps[..Examined(slots, ps)])
    requires k < |ps| && HitBy(slots[i], ps[k]) && !Matched(slots[i], ps[..k])
    ensures slot == Named(slots[i], Record(ps[k]).value)
  {
    hide PackObjectOk, Bad, Examined, Puts, Record, Seen, Total, MatchedTo, Hits;
    var m := Examined(slots, ps);
    var front, before := ps[..m], ps[..k];
    assert forall j :: 0 <= j < m ==> front[j] == ps[j];
    assert forall j :: 0 <= j < k ==> before[j] == ps[j];
    assert Matched(slots[i], front);
    var h :| 0 <= h < m && HitBy(slots[i], front[h]);
    assert h == k;
    forall j: nat | j < m ensures (Puts(slots, ps[j], i) <==> HitBy(slots[i], ps[j]) && Record(ps[j]).value.name != "") && Seen(ps[j]) == Record(ps[j]) {
      PutsHits(slots, ps[j], i);
    }
    forall j: nat | j < m && j != k ensures !HitBy(slots[i], ps[j]) {
      assert front[j] == ps[j] && front[k] == ps[k];
    }
  }

  // On a usable document the count is right, and every slot that asks for a
  // listed pack is given one, just when no such pack is listed again before
  // every slot has its pack; then each slot holds its pack's name.
  lemma NamesRight(c: Catalogue, slots: seq<Slot>)
    requires CatalogueOk(c) && |slots| > 0 && Usable(Final(Names, slots, TextOf(c)))
    ensures var t, ps := Final(Names, slots, TextOf(c)), AllPacks(c.members);
            && |t.doc.slots| == |slots|
            && (Right(slots, ps, t.doc.filled) <==> NoRepeat(slots, ps))
            && (forall i :: 0 <= i < |slots| && !Matched(slots[i], ps) ==> t.doc.slots[i] == slots[i])
            && (NoRepeat(slots, ps) ==>
                  forall i, k :: 0 <= i < |slots| && 0 <= k < |ps| && HitBy(slots[i], ps[k]) && !Matched(slots[i], ps[..k]) ==>
                                   t.doc.slots[i] == Named(slots[i], Record(ps[k]).value))
  {
    hide Feed, TextOf, Schema, FeedAll, Final, Bad, SlotIs, Total, Examined, AllPacks, Matched, NoRepeat, Right, Usable, Named, Record, Hits;
    NamesFilled(c, slots);
    var t, ps := Final(Names, slots, TextOf(c)), AllPacks(c.members);
    RightMeans(slots, ps);
    forall i | 0 <= i < |slots|
      ensures !Matched(slots[i], ps) ==> t.doc.slots[i] == slots[i]
      ensures NoRepeat(slots, ps) ==> forall k :: 0 <= k < |ps| && HitBy(slots[i], ps[k]) && !Matched(slots[i], ps[..k]) ==>
                                        t.doc.slots[i] == Named(slots[i], Record(ps[k]).value)
    {
      SlotHolds(slots, ps, i, t.doc.slots[i]);
    }
  }

  // Some pack was put into the slot, so one was put there last.
  lemma {:induction false} LastPut(slots: seq<Slot>, ps: seq<PackObject>, i: nat, k: nat) returns (last: nat)
    requires PacksOk(ps) && i < |slots| && PutBy(slots, ps, k, i)
    ensures PutBy(slots, ps, last, i) && forall j: nat :: j > last ==> !PutBy(slots, ps, j, i)
    decreases |ps| - k
  {
    hide Puts, Bad, PackObjectOk;
    if j: nat :| j > k && PutBy(slots, ps, j, i) {
      last := LastPut(slots, ps, i, j);
    } else {
      last := k;
    }
  }

  lemma BlankFilled(slots: seq<Slot>, ps: seq<PackObject>, i: nat, slot: Slot)
    requires PacksOk(ps) && i < |slots| && SlotIs(slots, ps, i, slot) && slots[i].out == ""
    requires forall k :: 0 <= k < Examined(slots, ps) ==> !Bad(slots, ps[k])
    requires forall k :: 0 <= k < |ps| && HitBy(slots[i], ps[k]) ==> Record(ps[k]).value.name != ""
    ensures slot.out != "" <==> Matched(slots[i], ps[..Examined(slots, ps)])
  {
    hide PackObjectOk, Bad, Examined, Puts, Record, Seen, Hits;
    var m := Examined(slots, ps);
    var front := ps[..m];
    forall k: nat | k < m ensures Puts(slots, ps[k], i) <==> HitBy(slots[i], front[k]) {
      PutsHits(slots, ps[k], i);
    }
    if k: nat :| PutBy(slots, ps, k, i) {
      var last := LastPut(slots, ps, i, k);
      PutsHits(slots, ps[last], i);
      assert last < m && front[last] == ps[last] && HitBy(slots[i], ps[last]);
      assert slot.out == Record(ps[last]).value.name && Matched(slots[i], front);
    } else {
      assert forall k :: 0 <= k < m ==> front[k] == ps[k] && !HitBy(slots[i], front[k]) by {
        forall k | 0 <= k < m ensures !HitBy(slots[i], front[k]) {
          assert !PutBy(slots, ps, k, i) && Reached(slots, ps, k);
        }
      }
    }
  }

  // The same, seen in the buffers: with blank buffers and named packs, the
  // count and the labels are right just when NoRepeat holds.
  lemma LabelsRight(c: Catalogue, slots: seq<Slot>)
    requires CatalogueOk(c) && |slots| > 0 && Usable(Final(Names, slots, TextOf(c)))
    requires forall i :: 0 <= i < |slots| ==> slots[i].out == ""
    requires var ps := AllPacks(c.members);
             forall i, k :: 0 <= i < |slots| && 0 <= k < |ps| && HitBy(slots[i], ps[k]) ==> Record(ps[k]).value.name != ""
    ensures var t, ps := Final(Names, slots, TextOf(c)), AllPacks(c.members);
            && |t.doc.slots| == |slots|
            && (NoRepeat(slots, ps) <==>
                  t.doc.filled == MatchedTo(slots, ps, |slots|)
                  && forall i :: 0 <= i < |slots| && Matched(slots[i], ps) ==> t.doc.slots[i].out != "")
  {
    hide Feed, TextOf, Schema, FeedAll, Final, Bad, SlotIs, Total, Examined, AllPacks, Matched, NoRepeat, Usable, Record, Hits, MatchedTo;
    NamesFilled(c, slots);
    var t, ps := Final(Names, slots, TextOf(c)), AllPacks(c.members);
    RightMeans(slots, ps);
    forall i | 0 <= i < |slots| ensures t.doc.slots[i].out != "" <==> Matched(slots[i], ps[..Examined(slots, ps)]) {
      BlankFilled(slots, ps, i, t.doc.slots[i]);
    }
  }
}
