/**
 What the values of an entry can be: which fields a pack must have to be one the
 device can install from, how long its strings are, and what becomes of its
 numbers.
 */
module CatalogValues {
  import opened Bytes
  import opened CatalogIndex
  import opened CatalogText
  import opened CatalogFind

  // Some field has the key and a string, not an empty one, for its value.
  ghost predicate Says(fs: seq<Field>, key: string) {
    exists f :: f in fs && Plain(f.key.name) == key && f.value.Str? && |f.value.pieces| > 0
  }

  // Some field has the key and an integer that is not negative.
  ghost predicate Counts(fs: seq<Field>, key: string)
    requires FieldsOk(fs)
  {
    exists f :: f in fs && Plain(f.key.name) == key && f.value.Num? && (f.value.negative ==> Value(f.value.digits) == 0)
  }

  lemma {:induction false} LastSaid(fs: seq<Field>, key: string)
    ensures LastText(fs, key) != "" ==> Says(fs, key)
  {
    hide Plain;
    if |fs| > 0 {
      var n := |fs| - 1;
      LastSaid(fs[..n], key);
      PlainSize(fs[n]);
      assert fs[n] in fs;
      assert forall f :: f in fs[..n] ==> f in fs;
    }
  }

  lemma PlainSize(f: Field)
    ensures f.value.Str? ==> |Plain(f.value.pieces)| == |f.value.pieces|
  {}

  lemma {:induction false} LastCounted(fs: seq<Field>, key: string)
    requires FieldsOk(fs)
    ensures LastNumber(fs, key, -1) >= 0 ==> Counts(fs, key)
  {
    hide Plain, Value;
    if |fs| > 0 {
      var n := |fs| - 1;
      LastCounted(fs[..n], key);
      assert fs[n] in fs;
      assert forall f :: f in fs[..n] ==> f in fs;
    }
  }

  // A string that fits is shorter than its field.
  lemma {:induction false} LastFits(fs: seq<Field>, key: string)
    requires FieldsOk(fs) && FieldsFit(fs) && Cap(key).Some?
    ensures LastText(fs, key) == "" || |LastText(fs, key)| < Cap(key).value
  {
    hide Plain, Cap;
    if |fs| > 0 {
      LastFits(fs[..|fs| - 1], key);
      PlainSize(fs[|fs| - 1]);
      FitsCap(fs[|fs| - 1]);
    }
  }

  lemma FitsCap(f: Field)
    requires FieldOk(f) && FieldFits(f)
    ensures f.value.Str? && Cap(Plain(f.key.name)).Some? ==> |f.value.pieces| < Cap(Plain(f.key.name)).value
  {}

  // A pack with an entry names an id, an address, a checksum and a length, and
  // its strings leave room for their terminators in the device's buffers.
  lemma RecordNeeds(p: PackObject)
    requires PackObjectOk(p) && Record(p).Some?
    ensures Says(p.fields, "id") && Says(p.fields, "url") && Says(p.fields, "sha256") && Counts(p.fields, "bytes")
    ensures var r := Record(p).value;
            && 0 < |r.id| <= 47 && |r.name| <= 47 && 0 < |r.url| <= 95 && 0 < |r.sha256| <= 64
            && 0 <= r.bytes && -0x8000_0000 <= r.version < 0x8000_0000 && -0x8000_0000 <= r.articles < 0x8000_0000
  {
    hide LastText, LastNumber, FieldsFit, Says, Counts, FieldsOk;
    var fs := p.fields;
    LastSaid(fs, "id");
    LastSaid(fs, "url");
    LastSaid(fs, "sha256");
    LastCounted(fs, "bytes");
    LastFits(fs, "id");
    LastFits(fs, "name");
    LastFits(fs, "url");
    LastFits(fs, "sha256");
  }

  // A version or an article count that does not fit wraps around.
  lemma Int32Wraps(n: int)
    ensures (Int32(n) - n) % U32 == 0
  {
    var k := (n + 0x8000_0000) / U32;
    assert Int32(n) - n == 0 - k * U32;
  }

  // A minus sign makes a number negative.
  lemma MinusRead(d: Doc, digits: string)
    requires Digits(digits) && Value(digits) <= INT64_MAX && d.depth != 1 && d.inPack
    ensures Effect(d, "bytes", Num(true, digits)).pack.bytes == 0 - Value(digits)
    ensures Effect(d, "bytes", Num(false, digits)).pack.bytes == Value(digits)
  {}
}
