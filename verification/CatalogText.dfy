/**
 The JSON text of a catalogue, as any printer may lay it out, and what the
 reader makes of it. A text is described by its parts with the white space
 between them; strings choose freely between a character and its escape.
 */
module CatalogText {
  import opened CatalogIndex
  import opened Options

  // ---- the parts of a text ----

  datatype Piece = Raw(c: char) | Esc(e: char)

  predicate PieceOk(p: Piece) {
    match p
    case Raw(c) => c != '"' && c != '\\' && c != NUL
    case Esc(e) => e == '"' || e == '\\' || e == '/' || e == 'n' || e == 't' || e == 'r' || e == 'b' || e == 'f' || e == 'u'
  }

  predicate PiecesOk(ps: seq<Piece>) { forall i :: 0 <= i < |ps| ==> PieceOk(ps[i]) }

  function PieceText(p: Piece): string {
    match p
    case Raw(c) => [c]
    case Esc(e) => ['\\', e]
  }

  function PiecesText(ps: seq<Piece>): string {
    if |ps| == 0 then "" else PiecesText(ps[..|ps| - 1]) + PieceText(ps[|ps| - 1])
  }

  function CharOf(p: Piece): char { if p.Raw? then p.c else Decoded(p.e) }

  // The string the reader makes of the pieces: the u of a numbered escape and
  // its four digits stay as they are.
  function Plain(ps: seq<Piece>): (s: string)
    ensures |s| == |ps|
  {
    seq(|ps|, i requires 0 <= i < |ps| => CharOf(ps[i]))
  }

  function StringText(ps: seq<Piece>): string { "\"" + PiecesText(ps) + "\"" }

  datatype Scalar = Str(pieces: seq<Piece>) | Num(negative: bool, digits: string) | Word(word: string)

  predicate Spaces(s: string) { forall i :: 0 <= i < |s| ==> IsSpace(s[i]) }

  predicate Digits(s: string) { |s| > 0 && forall i :: 0 <= i < |s| ==> IsDigit(s[i]) }

  predicate ScalarOk(v: Scalar) {
    match v
    case Str(ps) => PiecesOk(ps)
    case Num(_, digits) => Digits(digits)
    case Word(w) => forall i :: 0 <= i < |w| ==> 'a' <= w[i] <= 'z'
  }

  function ScalarText(v: Scalar): string {
    match v
    case Str(ps) => StringText(ps)
    case Num(negative, digits) => (if negative then "-" else "") + digits
    case Word(w) => w
  }

  function Value(digits: string): nat
    requires forall i :: 0 <= i < |digits| ==> IsDigit(digits[i])
  {
    if |digits| == 0 then 0 else Value(digits[..|digits| - 1]) * 10 + Digit(digits[|digits| - 1])
  }

  // ---- what a scalar means to the document ----

  // The field a pack keeps for a string, or nothing if it is too long.
  function PackString(p: Pack, key: string, text: string): Option<Pack> {
    if key == "id" then if |text| < ID_CAP then Some(p.(id := text)) else None
    else if key == "name" then if |text| < NAME_CAP then Some(p.(name := text)) else None
    else if key == "url" then if |text| < URL_CAP then Some(p.(url := text)) else None
    else if key == "sha256" then if |text| < SHA_CAP then Some(p.(sha256 := text)) else None
    else Some(p)
  }

  function Effect(d: Doc, key: string, v: Scalar): Doc
    requires ScalarOk(v)
  {
    match v
    case Str(ps) =>
      if d.depth == 1 then if key == "generated_at" && |ps| < STAMP_CAP then d.(stamp := Plain(ps)) else d
      else if !d.inPack then d
      else if PackString(d.pack, key, Plain(ps)).Some? then d.(pack := PackString(d.pack, key, Plain(ps)).value)
      else d.(failed := true)
    case Num(negative, digits) =>
      if Value(digits) > INT64_MAX then if d.inPack then d.(failed := true) else d
      else NumberAt(d, key, Signed(negative, Value(digits)))
    case Word(_) => d
  }

  // ---- states between tokens ----

  predicate Idle(s: State) { !s.doc.failed && !s.lex.inString && !s.lex.active && !s.lex.pending }

  // The document once a value still being held is taken in.
  function Taken(s: State): Doc { if s.doc.failed then s.doc else Flush(Settle(s)).doc }

  // The text so far means d, once a value still being held is taken in.
  predicate Lands(s: State, d: Doc) {
    Taken(s) == d && (!s.doc.failed ==> !s.lex.inString && !(s.lex.active && s.lex.pending))
  }

  // A string is being held: its taking in is left to the next delimiter, which
  // goes on even if the string turns out too long.
  predicate Holding(s: State) { !s.doc.failed && s.lex.pending }

  // The same, and in a failure held says whether it is still to come.
  predicate LandsWith(s: State, d: Doc, held: bool) { Lands(s, d) && (d.failed ==> (Holding(s) <==> held)) }

  // ---- characters and strings ----

  lemma {:induction false} FeedSpaces(s: State, ws: string)
    requires !s.doc.failed && !s.lex.inString && !s.lex.active && Spaces(ws)
    ensures FeedAll(s, ws) == s
  {
    if |ws| > 0 {
      FeedSpaces(s, ws[..|ws| - 1]);
    }
  }

  // Spaces after a value: at most the number before them is taken in.
  lemma {:induction false} SpacesLand(s: State, ws: string, d: Doc)
    requires Lands(s, d) && Spaces(ws)
    ensures Lands(FeedAll(s, ws), d) && Holding(FeedAll(s, ws)) == Holding(s)
  {
    hide HandleString, HandleNumber;
    if |ws| > 0 {
      SpacesLand(s, ws[..|ws| - 1], d);
    }
  }

  lemma {:induction false} FeedWord(s: State, w: string)
    requires Idle(s) && ScalarOk(Word(w))
    ensures FeedAll(s, w) == s
  {
    if |w| > 0 {
      FeedWord(s, w[..|w| - 1]);
    }
  }

  // The token holds text, or says that it does not fit.
  predicate TokenIs(l: Lex, text: string) {
    if |text| < TOKEN_CAP then !l.overflow && l.token == text && l.tokenLen == |text|
    else l.overflow && l.tokenLen >= TOKEN_CAP - 1
  }

  // Everything but the token.
  predicate SameBut(a: State, b: State) {
    a.doc == b.doc && a.lex.key == b.lex.key && a.lex.haveKey == b.lex.haveKey && a.lex.active == b.lex.active
  }

  lemma FeedPiece(s: State, p: Piece, text: string)
    requires PieceOk(p) && !s.doc.failed && s.lex.inString && !s.lex.escape && TokenIs(s.lex, text)
    ensures var t := FeedAll(s, PieceText(p));
            SameBut(s, t) && t.lex.inString && !t.lex.escape && TokenIs(t.lex, text + [CharOf(p)])
            && t.lex.pending == s.lex.pending
  {
    hide FeedAll, Decoded, FeedString, Punctuation, TokenIs;
    match p
    case Raw(c) =>
      FeedOne(s, c);
      TokenRaw(s.lex, c, text);
    case Esc(e) =>
      FeedOne(s, '\\');
      FeedOne(Feed(s, '\\'), e);
      FeedConcat(s, ['\\'], [e]);
      TokenEsc(s.lex, e, text);
      assert ['\\'] + [e] == ['\\', e];
  }

  // The parts of the token that a string's characters leave alone.
  predicate SameLex(a: Lex, b: Lex) {
    a.inString == b.inString && a.key == b.key && a.haveKey == b.haveKey && a.active == b.active && a.pending == b.pending
  }

  lemma TokenRaw(l: Lex, c: char, text: string)
    requires PieceOk(Raw(c)) && !l.escape && TokenIs(l, text)
    ensures var t := FeedString(l, c); SameLex(l, t) && !t.escape && TokenIs(t, text + [c])
  {
    RawSame(l, c);
    hide SameLex;
  }

  lemma RawSame(l: Lex, c: char)
    requires c != '"' && c != '\\' && !l.escape
    ensures SameLex(l, FeedString(l, c)) && !FeedString(l, c).escape
  {}

  lemma TokenEsc(l: Lex, e: char, text: string)
    requires PieceOk(Esc(e)) && !l.escape && TokenIs(l, text)
    ensures FeedString(l, '\\') == l.(escape := true)
    ensures var t := FeedString(l.(escape := true), e); SameLex(l, t) && !t.escape && TokenIs(t, text + [Decoded(e)])
  {}

  lemma {:induction false} FeedPieces(s: State, ps: seq<Piece>)
    requires PiecesOk(ps) && !s.doc.failed && s.lex.inString && !s.lex.escape && TokenIs(s.lex, "")
    ensures var t := FeedAll(s, PiecesText(ps));
            SameBut(s, t) && t.lex.inString && !t.lex.escape && TokenIs(t.lex, Plain(ps)) && t.lex.pending == s.lex.pending
  {
    hide Feed, PieceText;
    if |ps| == 0 {
    } else {
      var front, last := ps[..|ps| - 1], ps[|ps| - 1];
      FeedPieces(s, front);
      FeedPiece(FeedAll(s, PiecesText(front)), last, Plain(front));
      FeedConcat(s, PiecesText(front), PieceText(last));
      assert Plain(ps) == Plain(front) + [CharOf(last)];
    }
  }

  // A string ends up whole in the token, waiting for what follows it.
  lemma FeedQuoted(s: State, ps: seq<Piece>)
    requires Idle(s) && PiecesOk(ps)
    ensures var t := FeedAll(s, StringText(ps));
            SameBut(s, t) && !t.lex.inString && t.lex.pending && TokenIs(t.lex, Plain(ps))
  {
    var text := PiecesText(ps);
    FeedOne(s, '"');
    var s1 := Feed(s, '"');
    FeedPieces(s1, ps);
    FeedConcat(s, "\"", text);
    var s2 := FeedAll(s, "\"" + text);
    FeedOne(s2, '"');
    FeedConcat(s, "\"" + text, "\"");
  }

  lemma {:induction false} NoNul(text: string)
    requires forall i :: 0 <= i < |text| ==> text[i] != NUL
    ensures CatalogIndex.CString(text) == text
  {
    if |text| > 0 {
      NoNul(text[1..]);
    }
  }

  lemma PlainNoNul(ps: seq<Piece>)
    requires PiecesOk(ps)
    ensures CatalogIndex.CString(Plain(ps)) == Plain(ps)
  {
    forall i | 0 <= i < |ps| ensures Plain(ps)[i] != NUL {
      assert PieceOk(ps[i]);
    }
    NoNul(Plain(ps));
  }

  // ---- numbers ----

  predicate NumberIs(l: Lex, negative: bool, digits: string)
    requires forall i :: 0 <= i < |digits| ==> IsDigit(digits[i])
  {
    && l.active && l.negative == negative
    && (l.tooBig <==> Value(digits) > INT64_MAX)
    && (!l.tooBig ==> l.number == Value(digits))
  }

  lemma NumberGrows(l: Lex, negative: bool, digits: string, c: char)
    requires IsDigit(c) && (forall i :: 0 <= i < |digits| ==> IsDigit(digits[i])) && NumberIs(l, negative, digits)
    ensures NumberIs(FeedDigit(l, c), negative, digits + [c])
  {
    hide Digit, Value, Overflows;
    ValueGrows(digits, c);
    Overflow(Value(digits), Digit(c));
    Overflow(l.number, Digit(c));
  }

  lemma ValueGrows(digits: string, c: char)
    requires IsDigit(c) && forall i :: 0 <= i < |digits| ==> IsDigit(digits[i])
    ensures Value(digits + [c]) == Value(digits) * 10 + Digit(c)
  {
    hide Digit;
    assert (digits + [c])[..|digits|] == digits;
  }

  lemma Overflow(n: nat, d: nat)
    requires d < 10
    ensures Overflows(n, d) <==> n * 10 + d > INT64_MAX
    ensures n > INT64_MAX ==> n * 10 + d > INT64_MAX
  {}

  lemma {:induction false} MoreDigits(s: State, negative: bool, before: string, digits: string)
    requires !s.doc.failed && !s.lex.inString
    requires forall i :: 0 <= i < |before| ==> IsDigit(before[i])
    requires forall i :: 0 <= i < |digits| ==> IsDigit(digits[i])
    requires NumberIs(s.lex, negative, before)
    ensures var t := FeedAll(s, digits);
            SameBut(s, t) && !t.lex.inString && t.lex.pending == s.lex.pending && NumberIs(t.lex, negative, before + digits)
  {
    hide NumberIs, Punctuation, Settle, FeedString, FeedDigit, Value;
    if |digits| == 0 {
      assert before + digits == before;
    } else {
      var n := |digits| - 1;
      MoreDigits(s, negative, before, digits[..n]);
      DigitKeeps(FeedAll(s, digits[..n]).lex, digits[n]);
      NumberActive(FeedAll(s, digits[..n]).lex, negative, before + digits[..n]);
      NumberGrows(FeedAll(s, digits[..n]).lex, negative, before + digits[..n], digits[n]);
      assert before + digits == before + digits[..n] + [digits[n]];
    }
  }

  lemma NumberActive(l: Lex, negative: bool, digits: string)
    requires (forall i :: 0 <= i < |digits| ==> IsDigit(digits[i])) && NumberIs(l, negative, digits)
    ensures l.active
  {}

  lemma FeedNumber(s: State, negative: bool, digits: string)
    requires Idle(s) && Digits(digits)
    ensures var t := FeedAll(s, ScalarText(Num(negative, digits)));
            t.doc == s.doc && t.lex.key == s.lex.key && !t.lex.inString && !t.lex.pending && NumberIs(t.lex, negative, digits)
  {
    if negative {
      FeedOne(s, '-');
      FeedConcat(s, "-", digits);
      MoreDigits(Feed(s, '-'), true, "", digits);
      assert "" + digits == digits;
    } else {
      var first := digits[..1];
      assert first == [digits[0]] && first[..0] == "";
      FeedOne(s, digits[0]);
      FeedConcat(s, first, digits[1..]);
      assert first + digits[1..] == digits && "" + digits == digits;
      FirstDigit(s, digits[0]);
      MoreDigits(Feed(s, digits[0]), false, first, digits[1..]);
    }
  }

  lemma FirstDigit(s: State, c: char)
    requires Idle(s) && IsDigit(c)
    ensures var t := Feed(s, c); SameText(s, t) && NumberIs(t.lex, false, [c])
  {
    assert [c][..0] == [];
    assert Value([c]) == Digit(c);
  }

  // Same document and key, outside a string.
  predicate SameText(s: State, t: State) {
    t.doc == s.doc && t.lex.key == s.lex.key && t.lex.haveKey == s.lex.haveKey && !t.lex.inString && !t.lex.pending
  }

  // ---- values and fields ----

  lemma StringEffect(d: Doc, l: Lex, ps: seq<Piece>)
    requires PiecesOk(ps) && TokenIs(l, Plain(ps))
    ensures HandleString(d, l) == Effect(d, l.key, Str(ps))
  {
    hide Fits, Copied, TokenIs, Plain;
    FitsText(l, ps, ID_CAP);
    FitsText(l, ps, NAME_CAP);
    FitsText(l, ps, URL_CAP);
    FitsText(l, ps, SHA_CAP);
    FitsText(l, ps, STAMP_CAP);
  }

  lemma FitsText(l: Lex, ps: seq<Piece>, cap: nat)
    requires PiecesOk(ps) && TokenIs(l, Plain(ps)) && cap <= TOKEN_CAP
    ensures Fits(l, cap) == if |ps| < cap then Some(Plain(ps)) else None
    ensures cap < TOKEN_CAP ==> Copied(l, cap) == Fits(l, cap)
  {
    PlainNoNul(ps);
  }

  lemma ScalarLands(s: State, v: Scalar)
    requires Idle(s) && ScalarOk(v)
    ensures Lands(FeedAll(s, ScalarText(v)), Effect(s.doc, s.lex.key, v))
    ensures Holding(FeedAll(s, ScalarText(v))) <==> v.Str?
  {
    match v
    case Str(ps) =>
      FeedQuoted(s, ps);
      StringEffect(s.doc, FeedAll(s, StringText(ps)).lex, ps);
    case Num(negative, digits) =>
      FeedNumber(s, negative, digits);
    case Word(w) =>
      FeedWord(s, w);
  }

  datatype Key = Key(pre: string, name: seq<Piece>, mid: string, post: string)

  predicate KeyOk(k: Key) {
    Spaces(k.pre) && PiecesOk(k.name) && |k.name| < TOKEN_CAP && Spaces(k.mid) && Spaces(k.post)
  }

  function KeyText(k: Key): string { k.pre + StringText(k.name) + k.mid + ":" + k.post }

  lemma KeyFeeds(s: State, k: Key)
    requires Idle(s) && KeyOk(k)
    ensures var t := FeedAll(s, KeyText(k)); Idle(t) && t.doc == s.doc && t.lex.haveKey && t.lex.key == Plain(k.name)
  {
    var name := StringText(k.name);
    FeedSpaces(s, k.pre);
    FeedConcat(s, k.pre, name);
    FeedQuoted(s, k.name);
    PlainNoNul(k.name);
    var t := FeedAll(s, name);
    FeedSpaces(t, k.mid);
    FeedConcat(s, k.pre + name, k.mid);
    FeedOne(t, ':');
    FeedConcat(s, k.pre + name + k.mid, ":");
    FeedSpaces(Feed(t, ':'), k.post);
    FeedConcat(s, k.pre + name + k.mid + ":", k.post);
  }

  datatype Field = Field(key: Key, value: Scalar, end: string)

  predicate FieldOk(f: Field) { KeyOk(f.key) && ScalarOk(f.value) && Spaces(f.end) }

  function FieldText(f: Field): string { KeyText(f.key) + ScalarText(f.value) + f.end }

  lemma FieldLands(s: State, f: Field)
    requires Idle(s) && FieldOk(f)
    ensures Lands(FeedAll(s, FieldText(f)), Effect(s.doc, Plain(f.key.name), f.value))
    ensures Holding(FeedAll(s, FieldText(f))) <==> f.value.Str?
  {
    hide Lands, Holding, Effect, KeyText, ScalarText;
    KeyFeeds(s, f.key);
    var t := FeedAll(s, KeyText(f.key));
    ScalarLands(t, f.value);
    FeedConcat(s, KeyText(f.key), ScalarText(f.value));
    SpacesLand(FeedAll(t, ScalarText(f.value)), f.end, Effect(s.doc, Plain(f.key.name), f.value));
    FeedConcat(s, KeyText(f.key) + ScalarText(f.value), f.end);
  }

  // ---- delimiters ----

  // Between tokens, meaning exactly d.
  predicate Means(s: State, d: Doc) { s.doc == d && (!d.failed ==> Idle(s)) }

  lemma MeansLands(s: State, d: Doc)
    requires Means(s, d)
    ensures LandsWith(s, d, false)
  {}

  lemma {:induction false} SlotsFailed(d: Doc, p: Pack, i: nat)
    requires i <= |d.slots| && d.failed
    ensures FillSlots(d, p, i).failed
    decreases |d.slots| - i
  {
    if i < |d.slots| && d.slots[i].id == Some(p.id) && !(p.name != "" && |p.name| >= d.slots[i].cap) {
      var n, slot := d.filled + 1, d.slots[i];
      SlotsFailed(d.(slots := d.slots[i := slot.(out := if p.name != "" then p.name else slot.out)], filled := n,
                     done := d.done || n == |d.slots|), p, i + 1);
    } else if i < |d.slots| && d.slots[i].id != Some(p.id) {
      SlotsFailed(d, p, i + 1);
    }
  }

  lemma EndFailed(d: Doc, kind: char)
    requires d.failed
    ensures EndContainer(d, kind).failed
  {
    hide FillSlots;
    var d1 := d.(depth := if d.depth > 0 then d.depth - 1 else 0);
    var p := d1.pack.(complete := true);
    SlotsFailed(d1.(inPack := false, pack := p, entries := d1.entries + 1), p, 0);
  }

  lemma CommaLands(s: State, d: Doc)
    requires Lands(s, d)
    ensures Means(FeedAll(s, ","), d)
  {
    hide HandleString, HandleNumber;
    FeedOne(s, ',');
  }

  // A bracket closes its container unless the reader has failed before.
  function Closing(d: Doc, kind: char, held: bool): Doc { if d.failed && !held then d else EndContainer(d, kind) }

  lemma CloseLands(s: State, d: Doc, kind: char, held: bool)
    requires LandsWith(s, d, held) && (kind == '}' || kind == ']')
    ensures Means(FeedAll(s, [kind]), Closing(d, kind, held))
  {
    hide HandleString, HandleNumber, EndContainer;
    FeedOne(s, kind);
    if d.failed {
      EndFailed(d, kind);
    }
  }

  lemma OpenLands(s: State, kind: char)
    requires Idle(s) && (kind == '{' || kind == '[')
    ensures Means(FeedAll(s, [kind]), StartContainer(s.doc, s.lex.haveKey && s.lex.key == "packs", kind))
  {
    FeedOne(s, kind);
  }

  // ---- packs ----

  predicate FieldsOk(fs: seq<Field>) { forall i :: 0 <= i < |fs| ==> FieldOk(fs[i]) }

  function FieldsText(fs: seq<Field>): string {
    if |fs| == 0 then ""
    else (if |fs| == 1 then "" else FieldsText(fs[..|fs| - 1]) + ",") + FieldText(fs[|fs| - 1])
  }

  function FieldsEffect(d: Doc, fs: seq<Field>): Doc
    requires FieldsOk(fs)
  {
    if |fs| == 0 then d
    else
      var f, d1 := fs[|fs| - 1], FieldsEffect(d, fs[..|fs| - 1]);
      if d1.failed then d1 else Effect(d1, Plain(f.key.name), f.value)
  }

  // One more part after a comma, or the first.
  lemma NextLands(s: State, front: string, d1: Doc, part: string, d: Doc, held: bool)
    requires Lands(FeedAll(s, front), d1)
    requires d1.failed ==> d == d1
    requires !d1.failed ==> forall t :: Idle(t) && t.doc == d1 ==> LandsWith(FeedAll(t, part), d, held)
    ensures LandsWith(FeedAll(s, front + "," + part), d, held && !d1.failed)
  {
    hide Lands, Feed, Holding;
    var s1 := FeedAll(s, front);
    FeedConcat(s, front, ",");
    FeedConcat(s, front + ",", part);
    CommaLands(s1, d1);
    if d1.failed {
      FeedFailed(FeedAll(s1, ","), part);
      MeansLands(FeedAll(s1, ","), d);
    }
  }

  // The last field is a string, and the fields before it are in order.
  predicate EndsInString(d: Doc, fs: seq<Field>)
    requires FieldsOk(fs)
  {
    |fs| > 0 && fs[|fs| - 1].value.Str? && !FieldsEffect(d, fs[..|fs| - 1]).failed
  }

  lemma {:induction false} FieldsLand(s: State, fs: seq<Field>)
    requires Idle(s) && FieldsOk(fs)
    ensures LandsWith(FeedAll(s, FieldsText(fs)), FieldsEffect(s.doc, fs), EndsInString(s.doc, fs))
  {
    hide Lands, Holding, Effect, FieldText, Feed;
    if |fs| == 0 {
      MeansLands(s, s.doc);
    } else {
      var front, f := fs[..|fs| - 1], fs[|fs| - 1];
      var d1 := FieldsEffect(s.doc, front);
      forall t | Idle(t) && t.doc == d1
        ensures LandsWith(FeedAll(t, FieldText(f)), Effect(d1, Plain(f.key.name), f.value), f.value.Str?)
      {
        FieldLands(t, f);
      }
      if |fs| == 1 {
        assert "" + FieldText(f) == FieldText(f);
      } else {
        FieldsLand(s, front);
        NextLands(s, FieldsText(front), d1, FieldText(f), FieldsEffect(s.doc, fs), f.value.Str?);
      }
    }
  }

  datatype PackObject = PackObject(pre: string, inner: string, fields: seq<Field>, end: string)

  predicate PackObjectOk(p: PackObject) { Spaces(p.pre) && Spaces(p.inner) && FieldsOk(p.fields) && Spaces(p.end) }

  function PackText(p: PackObject): string { p.pre + "{" + p.inner + FieldsText(p.fields) + "}" + p.end }

  function PackEffect(d: Doc, p: PackObject): Doc
    requires PackObjectOk(p)
  {
    var d0 := StartContainer(d, false, '{');
    Closing(FieldsEffect(d0, p.fields), '}', EndsInString(d0, p.fields))
  }

  // The inside of a container, its closing bracket and the spaces after it.
  lemma InsideMeans(s: State, inner: string, inside: string, d1: Doc, held: bool, kind: char, end: string)
    requires Idle(s) && Spaces(inner) && LandsWith(FeedAll(s, inside), d1, held) && (kind == '}' || kind == ']') && Spaces(end)
    ensures Means(FeedAll(s, inner + inside + [kind] + end), Closing(d1, kind, held))
  {
    hide LandsWith, Feed, Closing, StartContainer;
    FeedSpaces(s, inner);
    FeedConcat(s, inner, inside);
    var s1 := FeedAll(s, inside);
    CloseLands(s1, d1, kind, held);
    FeedConcat(s, inner + inside, [kind]);
    var s2 := FeedAll(s1, [kind]);
    if s2.doc.failed {
      FeedFailed(s2, end);
    } else {
      FeedSpaces(s2, end);
    }
    FeedConcat(s, inner + inside + [kind], end);
  }

  lemma PackLands(s: State, p: PackObject)
    requires Idle(s) && PackObjectOk(p)
    ensures LandsWith(FeedAll(s, PackText(p)), PackEffect(s.doc, p), false)
  {
    hide LandsWith, Feed, Closing, FieldsText, FieldsEffect, EndsInString;
    FeedSpaces(s, p.pre);
    FeedConcat(s, p.pre, "{");
    OpenLands(s, '{');
    var s1 := FeedAll(s, "{");
    FieldsLand(s1, p.fields);
    InsideMeans(s1, p.inner, FieldsText(p.fields), FieldsEffect(s1.doc, p.fields), EndsInString(s1.doc, p.fields), '}', p.end);
    FeedConcat(s, p.pre + "{", p.inner + FieldsText(p.fields) + "}" + p.end);
    var inside := p.inner + FieldsText(p.fields) + "}" + p.end;
    assert PackText(p) == p.pre + "{" + inside;
    MeansLands(FeedAll(s1, inside), PackEffect(s.doc, p));
  }

  predicate PacksOk(ps: seq<PackObject>) { forall i :: 0 <= i < |ps| ==> PackObjectOk(ps[i]) }

  function PacksText(ps: seq<PackObject>): string {
    if |ps| == 0 then ""
    else (if |ps| == 1 then "" else PacksText(ps[..|ps| - 1]) + ",") + PackText(ps[|ps| - 1])
  }

  function PacksEffect(d: Doc, ps: seq<PackObject>): Doc
    requires PacksOk(ps)
  {
    if |ps| == 0 then d
    else
      var d1 := PacksEffect(d, ps[..|ps| - 1]);
      if d1.failed then d1 else PackEffect(d1, ps[|ps| - 1])
  }

  lemma {:induction false} PacksLand(s: State, ps: seq<PackObject>)
    requires Idle(s) && PacksOk(ps)
    ensures LandsWith(FeedAll(s, PacksText(ps)), PacksEffect(s.doc, ps), false)
  {
    hide Lands, Holding, PackEffect, PackText, Feed;
    if |ps| == 0 {
      MeansLands(s, s.doc);
    } else {
      var front, p := ps[..|ps| - 1], ps[|ps| - 1];
      var d1 := PacksEffect(s.doc, front);
      forall t | Idle(t) && t.doc == d1 ensures LandsWith(FeedAll(t, PackText(p)), PackEffect(d1, p), false) {
        PackLands(t, p);
      }
      if |ps| == 1 {
        assert "" + PackText(p) == PackText(p);
      } else {
        PacksLand(s, front);
        NextLands(s, PacksText(front), d1, PackText(p), PacksEffect(s.doc, ps), false);
      }
    }
  }

  // ---- values the reader passes over ----

  datatype Tok = Chr(c: char) | Quote(pieces: seq<Piece>) | Open(kind: char) | Close(kind: char)

  predicate TokOk(t: Tok) {
    match t
    case Chr(c) => c != '"' && c != '{' && c != '[' && c != '}' && c != ']'
    case Quote(ps) => PiecesOk(ps)
    case Open(k) => k == '{' || k == '['
    case Close(k) => k == '}' || k == ']'
  }

  function TokText(t: Tok): string {
    match t
    case Chr(c) => [c]
    case Quote(ps) => StringText(ps)
    case Open(k) => [k]
    case Close(k) => [k]
  }

  function ToksText(ts: seq<Tok>): string {
    if |ts| == 0 then "" else ToksText(ts[..|ts| - 1]) + TokText(ts[|ts| - 1])
  }

  function Level(ts: seq<Tok>): int {
    if |ts| == 0 then 0
    else Level(ts[..|ts| - 1]) + if ts[|ts| - 1].Open? then 1 else if ts[|ts| - 1].Close? then -1 else 0
  }

  // One container, however deep: it closes at the last token and not before.
  predicate Nested(ts: seq<Tok>) {
    && |ts| > 1 && (forall i :: 0 <= i < |ts| ==> TokOk(ts[i]))
    && Level(ts) == 0 && forall n :: 0 < n < |ts| ==> Level(ts[..n]) > 0
  }

  // Inside a passed-over value only the depth moves.
  predicate Passing(s: State, d: Doc, level: int) {
    level >= 0 && !s.doc.failed && !s.lex.inString && s.doc == d.(depth := d.depth + level)
  }

  predicate Outside(d: Doc) { d.depth == 1 && !d.inPack && !d.inPacks && !d.failed }

  lemma PassTok(s: State, d: Doc, level: int, t: Tok)
    requires Outside(d) && level > 0 && Passing(s, d, level) && TokOk(t)
    ensures var n := level + if t.Open? then 1 else if t.Close? then -1 else 0;
            Passing(FeedAll(s, TokText(t)), d, n) && (t.Close? ==> Idle(FeedAll(s, TokText(t))))
  {
    hide HandleString, HandleNumber, Feed, Closed, NumberAt;
    match t
    case Chr(c) =>
      FeedOne(s, c);
      PassChr(s, c);
    case Open(k) =>
      FeedOne(s, k);
      PassOpen(s, k);
    case Close(k) =>
      FeedOne(s, k);
      PassClose(s, k);
    case Quote(ps) =>
      FeedOne(s, '"');
      PassChr(s, '"');
      PassQuote(s, ps);
  }

  lemma NothingKept(s: State)
    requires s.doc.depth > 1 && !s.doc.inPack
    ensures HandleString(s.doc, s.lex.(active := false)) == s.doc && HandleString(s.doc, s.lex) == s.doc
    ensures HandleNumber(s.doc, s.lex) == s.doc
  {}

  lemma PassChr(s: State, c: char)
    requires s.doc.depth > 1 && !s.doc.inPack && !s.doc.failed && !s.lex.inString
    requires c != '{' && c != '[' && c != '}' && c != ']'
    ensures var t := Feed(s, c); t.doc == s.doc && t.lex.inString == (c == '"')
    ensures c == '"' ==> var t := Feed(s, c); !t.lex.escape && TokenIs(t.lex, "")
  {
    hide Flush, Settle, FeedDigit, SetKey;
    PassSettled(s);
    if s.lex.active && IsDigit(c) {
      DigitKeeps(s.lex, c);
    }
    KeyKeeps(Settle(s).lex);
  }

  lemma DigitKeeps(l: Lex, c: char)
    requires IsDigit(c)
    ensures SameLex(l, FeedDigit(l, c))
  {
    hide Overflows, Digit;
  }

  lemma KeyKeeps(l: Lex)
    ensures SetKey(l).inString == l.inString
  {}

  // The state that a character other than a digit or a quote finds.
  lemma PassSettled(s: State)
    requires s.doc.depth > 1 && !s.doc.inPack && !s.doc.failed && !s.lex.inString
    ensures var t := Flush(Settle(s)); t.doc == s.doc && !t.lex.active && !t.lex.pending && !t.lex.inString
    ensures Settle(s).doc == s.doc && !Settle(s).lex.inString
  {
    hide HandleString, HandleNumber;
    NothingKept(s);
  }

  lemma PassOpen(s: State, c: char)
    requires s.doc.depth > 1 && !s.doc.inPack && !s.doc.failed && !s.lex.inString && (c == '{' || c == '[')
    ensures var t := Feed(s, c); Idle(t) && t.doc == StartContainer(s.doc, false, c)
  {
    hide Flush, Settle;
    PassSettled(s);
  }

  lemma PassClose(s: State, c: char)
    requires s.doc.depth > 1 && !s.doc.inPack && !s.doc.failed && !s.lex.inString && (c == '}' || c == ']')
    ensures var t := Feed(s, c); t.doc == EndContainer(s.doc, c) && (!t.doc.failed ==> Idle(t))
  {
    hide Flush, Settle, EndContainer;
    PassSettled(s);
  }

  lemma PassQuote(s: State, ps: seq<Piece>)
    requires PiecesOk(ps) && !s.doc.failed
    requires var s1 := Feed(s, '"'); s1.doc == s.doc && s1.lex.inString && !s1.lex.escape && TokenIs(s1.lex, "")
    ensures var t := FeedAll(s, StringText(ps)); t.doc == s.doc && !t.lex.inString
  {
    hide TokenIs;
    var text := PiecesText(ps);
    FeedOne(s, '"');
    FeedPieces(Feed(s, '"'), ps);
    FeedConcat(s, "\"", text);
    var s2 := FeedAll(s, "\"" + text);
    FeedOne(s2, '"');
    FeedConcat(s, "\"" + text, "\"");
  }

  lemma {:induction false} PassToks(s: State, ts: seq<Tok>, n: nat)
    requires Idle(s) && Outside(s.doc) && Nested(ts) && 0 < n <= |ts| && (s.lex.key != "packs" || ts[0] == Open('{'))
    ensures Passing(FeedAll(s, ToksText(ts[..n])), s.doc, Level(ts[..n]))
    ensures n == |ts| ==> Idle(FeedAll(s, ToksText(ts[..n])))
  {
    hide Feed, TokText, Idle;
    var t := ts[n - 1];
    assert ts[..n][..n - 1] == ts[..n - 1] && ts[..n][n - 1] == t;
    if n == 1 {
      assert Level(ts[..1]) > 0;
      assert "" + TokText(t) == TokText(t);
      FirstTok(s, t);
    } else {
      PassToks(s, ts, n - 1);
      PassTok(FeedAll(s, ToksText(ts[..n - 1])), s.doc, Level(ts[..n - 1]), t);
      FeedConcat(s, ToksText(ts[..n - 1]), TokText(t));
      if n == |ts| {
        assert ts[..n] == ts;
      }
    }
  }

  lemma FirstTok(s: State, t: Tok)
    requires Idle(s) && Outside(s.doc) && TokOk(t) && t.Open? && (s.lex.key != "packs" || t.kind == '{')
    ensures Passing(FeedAll(s, TokText(t)), s.doc, 1)
  {
    OpenLands(s, t.kind);
  }

  // ---- the whole document ----

  datatype Member =
    | Plainly(field: Field)
    | PackList(key: Key, inner: string, packs: seq<PackObject>, end: string)
    | Other(key: Key, value: seq<Tok>, end: string)

  predicate MemberOk(m: Member) {
    match m
    case Plainly(f) => FieldOk(f)
    case PackList(k, inner, ps, end) => KeyOk(k) && Plain(k.name) == "packs" && Spaces(inner) && PacksOk(ps) && Spaces(end)
    case Other(k, ts, end) => KeyOk(k) && Nested(ts) && (Plain(k.name) != "packs" || ts[0] == Open('{')) && Spaces(end)
  }

  function MemberText(m: Member): string {
    match m
    case Plainly(f) => FieldText(f)
    case PackList(k, inner, ps, end) => KeyText(k) + ("[" + (inner + PacksText(ps) + "]" + end))
    case Other(k, ts, end) => KeyText(k) + ToksText(ts) + end
  }

  function MemberEffect(d: Doc, m: Member): Doc
    requires MemberOk(m)
  {
    match m
    case Plainly(f) => Effect(d, Plain(f.key.name), f.value)
    case PackList(_, _, ps, _) =>
      var d1 := PacksEffect(StartContainer(d, true, '['), ps);
      if d1.failed then d1 else EndContainer(d1, ']')
    case Other(_, _, _) => d
  }

  lemma MemberLands(s: State, m: Member)
    requires Idle(s) && Outside(s.doc) && MemberOk(m)
    ensures LandsWith(FeedAll(s, MemberText(m)), MemberEffect(s.doc, m), false)
  {
    hide Lands, Holding, Feed, KeyText, KeyOk, PacksText, PacksEffect, ToksText, EndContainer, Nested;
    match m
    case Plainly(f) =>
      FieldLands(s, f);
      RootNeverFails(s.doc, f);
    case PackList(k, inner, ps, end) =>
      KeyFeeds(s, k);
      var t := FeedAll(s, KeyText(k));
      OpenLands(t, '[');
      var t1 := FeedAll(t, "[");
      PacksLand(t1, ps);
      var inside := inner + PacksText(ps) + "]" + end;
      InsideMeans(t1, inner, PacksText(ps), PacksEffect(t1.doc, ps), false, ']', end);
      FeedConcat(t, "[", inside);
      FeedConcat(s, KeyText(k), "[" + inside);
      MeansLands(FeedAll(t1, inside), MemberEffect(s.doc, m));
    case Other(k, ts, end) =>
      OtherLands(s, m);
  }

  // No scalar outside the packs is an error.
  lemma RootNeverFails(d: Doc, f: Field)
    requires Outside(d) && FieldOk(f)
    ensures !Effect(d, Plain(f.key.name), f.value).failed
  {
    hide Value, Int32;
  }

  lemma OtherLands(s: State, m: Member)
    requires m.Other? && Idle(s) && Outside(s.doc) && MemberOk(m)
    ensures LandsWith(FeedAll(s, MemberText(m)), s.doc, false)
  {
    hide Lands, Holding, Feed, KeyText, KeyOk, ToksText;
    KeyFeeds(s, m.key);
    var t := FeedAll(s, KeyText(m.key));
    PassToks(t, m.value, |m.value|);
    assert m.value[..|m.value|] == m.value;
    FeedConcat(s, KeyText(m.key), ToksText(m.value));
    var t1 := FeedAll(t, ToksText(m.value));
    assert t1.doc == s.doc;
    MeansLands(t1, s.doc);
    SpacesLand(t1, m.end, s.doc);
    FeedConcat(s, KeyText(m.key) + ToksText(m.value), m.end);
  }

  // Every member is read at depth 1, outside the packs.
  lemma MemberKeeps(d: Doc, m: Member)
    requires Outside(d) && MemberOk(m)
    ensures var d1 := MemberEffect(d, m); d1.failed || (Outside(d1) && d1.mode == d.mode)
  {
    match m
    case Plainly(_) =>
    case PackList(_, _, ps, _) => PacksKeep(StartContainer(d, true, '['), ps);
    case Other(_, _, _) =>
  }

  // Among the packs of the packs array.
  predicate Among(d: Doc) { d.depth == 2 && d.inPacks && d.packsDepth == 2 && !d.inPack }

  predicate SamePlace(a: Doc, b: Doc) {
    a.depth == b.depth && a.inPacks == b.inPacks && a.packsDepth == b.packsDepth && a.inPack == b.inPack && a.mode == b.mode
  }

  lemma EffectKeeps(d: Doc, key: string, v: Scalar)
    requires ScalarOk(v)
    ensures SamePlace(d, Effect(d, key, v))
  {
    hide Value, NumberAt, PackString, Plain;
    if v.Num? && Value(v.digits) <= INT64_MAX {
      NumberKeeps(d, key, Signed(v.negative, Value(v.digits)));
    }
  }

  lemma NumberKeeps(d: Doc, key: string, n: int)
    ensures SamePlace(d, NumberAt(d, key, n))
  {
    hide Int32;
  }

  lemma {:induction false} FieldsKeep(d: Doc, fs: seq<Field>)
    requires FieldsOk(fs)
    ensures SamePlace(d, FieldsEffect(d, fs))
  {
    hide Effect;
    if |fs| > 0 {
      var front, f := fs[..|fs| - 1], fs[|fs| - 1];
      FieldsKeep(d, front);
      EffectKeeps(FieldsEffect(d, front), Plain(f.key.name), f.value);
    }
  }

  lemma {:induction false} SlotsKeep(d: Doc, p: Pack, i: nat)
    requires i <= |d.slots|
    ensures SamePlace(d, FillSlots(d, p, i))
    decreases |d.slots| - i
  {
    if i < |d.slots| {
      var slot, n := d.slots[i], d.filled + 1;
      if slot.id != Some(p.id) {
        SlotsKeep(d, p, i + 1);
      } else if !(p.name != "" && |p.name| >= slot.cap) {
        SlotsKeep(d.(slots := d.slots[i := slot.(out := if p.name != "" then p.name else slot.out)], filled := n,
                     done := d.done || n == |d.slots|), p, i + 1);
      }
    }
  }

  lemma PackKeeps(d: Doc, p: PackObject)
    requires Among(d) && PackObjectOk(p)
    ensures var d1 := PackEffect(d, p); d1.failed || (Among(d1) && d1.mode == d.mode)
  {
    hide FieldsEffect, FillSlots, EndsInString;
    FieldsKeep(StartContainer(d, false, '{'), p.fields);
    var d2 := FieldsEffect(StartContainer(d, false, '{'), p.fields);
    var d3 := d2.(depth := 2, inPack := false, pack := d2.pack.(complete := true), entries := d2.entries + 1);
    SlotsKeep(d3, d3.pack, 0);
  }

  lemma {:induction false} PacksKeep(d: Doc, ps: seq<PackObject>)
    requires Among(d) && PacksOk(ps)
    ensures var d1 := PacksEffect(d, ps); d1.failed || (Among(d1) && d1.mode == d.mode)
  {
    hide PackEffect;
    if |ps| > 0 {
      PacksKeep(d, ps[..|ps| - 1]);
      if !PacksEffect(d, ps[..|ps| - 1]).failed {
        PackKeeps(PacksEffect(d, ps[..|ps| - 1]), ps[|ps| - 1]);
      }
    }
  }

  predicate MembersOk(ms: seq<Member>) { forall i :: 0 <= i < |ms| ==> MemberOk(ms[i]) }

  function MembersText(ms: seq<Member>): string {
    if |ms| == 0 then ""
    else (if |ms| == 1 then "" else MembersText(ms[..|ms| - 1]) + ",") + MemberText(ms[|ms| - 1])
  }

  function MembersEffect(d: Doc, ms: seq<Member>): Doc
    requires MembersOk(ms)
  {
    if |ms| == 0 then d
    else
      var d1 := MembersEffect(d, ms[..|ms| - 1]);
      if d1.failed then d1 else MemberEffect(d1, ms[|ms| - 1])
  }

  lemma {:induction false} MembersKeep(d: Doc, ms: seq<Member>)
    requires Outside(d) && MembersOk(ms)
    ensures var d1 := MembersEffect(d, ms); d1.failed || (Outside(d1) && d1.mode == d.mode)
  {
    hide MemberEffect;
    if |ms| > 0 {
      MembersKeep(d, ms[..|ms| - 1]);
      if !MembersEffect(d, ms[..|ms| - 1]).failed {
        MemberKeeps(MembersEffect(d, ms[..|ms| - 1]), ms[|ms| - 1]);
      }
    }
  }

  lemma {:induction false} MembersLand(s: State, ms: seq<Member>)
    requires Idle(s) && Outside(s.doc) && MembersOk(ms)
    ensures LandsWith(FeedAll(s, MembersText(ms)), MembersEffect(s.doc, ms), false)
  {
    hide Lands, Holding, MemberEffect, MemberText, Feed, MemberOk;
    if |ms| == 0 {
      MeansLands(s, s.doc);
    } else {
      var front, m := ms[..|ms| - 1], ms[|ms| - 1];
      var d1 := MembersEffect(s.doc, front);
      MembersKeep(s.doc, front);
      if !d1.failed {
        forall t | Idle(t) && t.doc == d1 ensures LandsWith(FeedAll(t, MemberText(m)), MemberEffect(d1, m), false) {
          MemberLands(t, m);
        }
      }
      if |ms| == 1 {
        assert "" + MemberText(m) == MemberText(m);
      } else {
        MembersLand(s, front);
        NextLands(s, MembersText(front), d1, MemberText(m), MembersEffect(s.doc, ms), false);
      }
    }
  }

  datatype Catalogue = Catalogue(pre: string, inner: string, members: seq<Member>, end: string)

  predicate CatalogueOk(c: Catalogue) { Spaces(c.pre) && Spaces(c.inner) && MembersOk(c.members) && Spaces(c.end) }

  function TextOf(c: Catalogue): string { c.pre + "{" + (c.inner + MembersText(c.members) + "}" + c.end) }

  function Root(mode: Mode, slots: seq<Slot>): Doc { Fresh(mode, slots).doc.(depth := 1) }

  // The reader's answer on a whole text is the fold of its members.
  lemma TextMeans(c: Catalogue, mode: Mode, slots: seq<Slot>)
    requires CatalogueOk(c)
    ensures var t, d := Final(mode, slots, TextOf(c)), MembersEffect(Root(mode, slots), c.members);
            && (Usable(t) <==> !d.failed && d.schema == 1)
            && t.doc == if d.failed then d else d.(depth := 0)
  {
    hide LandsWith, Feed, MembersText, MembersEffect;
    var s, d1 := Fresh(mode, slots), Root(mode, slots);
    FeedSpaces(s, c.pre);
    FeedConcat(s, c.pre, "{");
    OpenLands(s, '{');
    var s1 := FeedAll(s, "{");
    MembersLand(s1, c.members);
    MembersKeep(d1, c.members);
    InsideMeans(s1, c.inner, MembersText(c.members), MembersEffect(d1, c.members), false, '}', c.end);
    FeedConcat(s, c.pre + "{", c.inner + MembersText(c.members) + "}" + c.end);
  }
}
