/**
 Documents that are cut off. The brackets and quotes of a text are followed by a
 scanner that knows nothing else of it; whatever the catalogue reader accepts has
 them closed, and no catalogue has before its end.
 */
module CatalogCut {
  import opened CatalogIndex
  import opened CatalogText
  import opened Options

  // ---- brackets and quotes ----

  datatype Lexer = Lexer(quoted: bool, escaped: bool, level: nat)

  const START := Lexer(false, false, 0)

  function Lex1(q: Lexer, c: char): Lexer {
    if q.quoted then
      if q.escaped then q.(escaped := false)
      else if c == '\\' then q.(escaped := true)
      else q.(quoted := c != '"')
    else if c == '"' then q.(quoted := true)
    else if c in ['{', '['] then q.(level := q.level + 1)
    else if c in ['}', ']'] then q.(level := if q.level > 0 then q.level - 1 else 0)
    else q
  }

  function Lexed(q: Lexer, text: string): Lexer {
    if |text| == 0 then q else Lex1(Lexed(q, text[..|text| - 1]), text[|text| - 1])
  }

  lemma {:induction false} LexConcat(q: Lexer, a: string, b: string)
    ensures Lexed(q, a + b) == Lexed(Lexed(q, a), b)
  {
    hide Lex1;
    if |b| == 0 {
      assert a + b == a;
    } else {
      LexConcat(q, a, b[..|b| - 1]);
      assert (a + b)[..|a + b| - 1] == a + b[..|b| - 1];
    }
  }

  // ---- the reader follows them ----

  predicate Follows(s: State, q: Lexer) {
    s.doc.failed || (s.lex.inString == q.quoted && (q.quoted ==> s.lex.escape == q.escaped) && s.doc.depth == q.level
                     && (!q.quoted ==> !q.escaped))
  }

  lemma EscapedFollows(l: Lex, c: char)
    requires l.inString && l.escape
    ensures FeedString(l, c).inString && !FeedString(l, c).escape
  {
    hide Decoded;
    var l1 := l.(escape := false);
    assert l1.inString && !l1.escape;
  }

  lemma StringFollows(l: Lex, c: char)
    requires l.inString
    ensures var m := FeedString(l, c);
            && m.inString == (l.escape || c != '"')
            && m.escape == (!l.escape && c == '\\')
  {
    hide Decoded;
    if l.escape {
      EscapedFollows(l, c);
      hide FeedString;
    }
  }

  lemma SettleKeeps(s: State)
    ensures Settle(s).lex.inString == s.lex.inString && Settle(s).doc.depth == s.doc.depth
    ensures s.doc.failed ==> Settle(s).doc.failed
  {
    hide Signed, Int32;
  }

  lemma FlushKeeps(s: State)
    ensures Flush(s).lex.inString == s.lex.inString && Flush(s).doc.depth == s.doc.depth
  {
    hide KeepString;
  }

  lemma EndDepth(d: Doc, kind: char)
    ensures EndContainer(d, kind).depth == if d.depth > 0 then d.depth - 1 else 0
  {
    hide FillSlots, Complete, Wanted;
    var d1 := d.(depth := if d.depth > 0 then d.depth - 1 else 0);
    var p := d1.pack.(complete := true);
    SlotsKeep(d1.(inPack := false, pack := p, entries := d1.entries + 1), p, 0);
  }

  lemma StartDepth(d: Doc, packsKey: bool, kind: char)
    ensures StartContainer(d, packsKey, kind).depth == d.depth + 1
  {}

  lemma BracketFollows(s: State, c: char)
    requires c == '{' || c == '[' || c == '}' || c == ']'
    ensures Punctuation(s, c).lex.inString == s.lex.inString
    ensures Punctuation(s, c).doc.depth ==
            if c == '{' || c == '[' then s.doc.depth + 1 else if s.doc.depth > 0 then s.doc.depth - 1 else 0
  {
    hide Flush, StartContainer, EndContainer, SetKey, IsDigit, Digit;
    FlushKeeps(s);
    var f := Flush(s);
    if c == '{' || c == '[' {
      StartDepth(f.doc, f.lex.haveKey && f.lex.key == "packs", c);
    } else {
      EndDepth(f.doc, c);
    }
  }

  lemma ColonFollows(s: State)
    ensures var t := Punctuation(s, ':'); t.lex.inString == s.lex.inString && t.doc.depth == s.doc.depth
  {
    hide Flush, StartContainer, EndContainer, SetKey;
    KeyKeeps(s.lex);
  }

  lemma CommaFollows(s: State)
    ensures var t := Punctuation(s, ','); t.lex.inString == s.lex.inString && t.doc.depth == s.doc.depth
  {
    hide Flush, StartContainer, EndContainer, SetKey;
    FlushKeeps(s);
  }

  lemma OtherFollows(s: State, c: char)
    requires c != '{' && c != '[' && c != '}' && c != ']' && c != '"'
    ensures var t := Punctuation(s, c); t.lex.inString == s.lex.inString && t.doc.depth == s.doc.depth
  {
    hide Flush, StartContainer, EndContainer, SetKey, Digit;
    if c == ':' {
      ColonFollows(s);
      hide Punctuation;
    } else if c == ',' {
      CommaFollows(s);
      hide Punctuation;
    }
  }

  lemma PunctuationFollows(s: State, q: Lexer, c: char)
    requires !s.doc.failed && !s.lex.inString && Follows(s, q)
    ensures Follows(Punctuation(s, c), Lex1(q, c))
  {
    if c in ['{', '[', '}', ']'] {
      BracketFollows(s, c);
      hide Punctuation;
    } else if c != '"' {
      OtherFollows(s, c);
      hide Punctuation;
    }
  }

  lemma FeedFollows(s: State, q: Lexer, c: char)
    requires Follows(s, q)
    ensures Follows(Feed(s, c), Lex1(q, c))
  {
    hide Punctuation, Settle, FeedString, FeedDigit;
    if !s.doc.failed {
      if s.lex.inString {
        StringFollows(s.lex, c);
      } else if s.lex.active && IsDigit(c) {
        DigitKeeps(s.lex, c);
      } else {
        SettleKeeps(s);
        if !Settle(s).doc.failed {
          PunctuationFollows(Settle(s), q, c);
        }
      }
    }
  }

  lemma {:induction false} TextFollows(s: State, q: Lexer, text: string)
    requires Follows(s, q)
    ensures Follows(FeedAll(s, text), Lexed(q, text))
  {
    hide Feed, Lex1, Follows;
    if |text| > 0 {
      TextFollows(s, q, text[..|text| - 1]);
      FeedFollows(FeedAll(s, text[..|text| - 1]), Lexed(q, text[..|text| - 1]), text[|text| - 1]);
    }
  }

  // Whatever text a pass accepts has every bracket closed and no string open.
  lemma UsableIsClosed(mode: Mode, slots: seq<Slot>, text: string)
    requires Usable(Final(mode, slots, text))
    ensures Lexed(START, text).level == 0 && !Lexed(START, text).quoted
  {
    TextFollows(Fresh(mode, slots), START, text);
    hide FeedAll, Lexed;
  }

  // ---- the parts of a catalogue close what they open ----

  function At(n: nat): Lexer { Lexer(false, false, n) }

  // From q the text leads to r, and nowhere on the way below the floor.
  ghost predicate Walks(floor: nat, q: Lexer, text: string, r: Lexer) {
    Lexed(q, text) == r && forall k :: 0 <= k <= |text| ==> Lexed(q, text[..k]).level >= floor
  }

  lemma WalkOn(floor: nat, q: Lexer, a: string, r: Lexer, b: string, z: Lexer)
    requires Walks(floor, q, a, r) && Walks(floor, r, b, z)
    ensures Walks(floor, q, a + b, z)
  {
    hide Lexed;
    LexConcat(q, a, b);
    forall k | 0 <= k <= |a + b| ensures Lexed(q, (a + b)[..k]).level >= floor {
      if k <= |a| {
        assert (a + b)[..k] == a[..k];
      } else {
        assert (a + b)[..k] == a + b[..k - |a|];
        LexConcat(q, a, b[..k - |a|]);
      }
    }
  }

  lemma WalkNone(floor: nat, q: Lexer)
    requires q.level >= floor
    ensures Walks(floor, q, "", q)
  {}

  lemma WalkOne(floor: nat, q: Lexer, c: char)
    requires q.level >= floor && Lex1(q, c).level >= floor
    ensures Walks(floor, q, [c], Lex1(q, c))
  {
    hide Lex1;
    assert [c][..0] == [];
    forall k | 0 <= k <= 1 ensures Lexed(q, [c][..k]).level >= floor {
      assert [c][..k] == if k == 0 then [] else [c];
    }
  }

  // Neither quotes nor brackets.
  predicate Flat(text: string) { forall i :: 0 <= i < |text| ==> text[i] !in ['"', '{', '[', '}', ']'] }

  lemma {:induction false} WalkFlat(floor: nat, n: nat, text: string)
    requires Flat(text) && floor <= n
    ensures Walks(floor, At(n), text, At(n))
  {
    hide Walks;
    if |text| == 0 {
      WalkNone(floor, At(n));
    } else {
      var front := text[..|text| - 1];
      WalkFlat(floor, n, front);
      WalkOne(floor, At(n), text[|text| - 1]);
      WalkOn(floor, At(n), front, At(n), [text[|text| - 1]], At(n));
      assert text == front + [text[|text| - 1]];
    }
  }

  lemma WalkPiece(floor: nat, n: nat, p: Piece)
    requires PieceOk(p) && floor <= n
    ensures Walks(floor, Lexer(true, false, n), PieceText(p), Lexer(true, false, n))
  {
    hide Walks;
    var q := Lexer(true, false, n);
    match p
    case Raw(c) => WalkOne(floor, q, c);
    case Esc(e) =>
      WalkOne(floor, q, '\\');
      WalkOne(floor, q.(escaped := true), e);
      WalkOn(floor, q, ['\\'], q.(escaped := true), [e], q);
      assert ['\\'] + [e] == ['\\', e];
  }

  lemma {:induction false} WalkPieces(floor: nat, n: nat, ps: seq<Piece>)
    requires PiecesOk(ps) && floor <= n
    ensures Walks(floor, Lexer(true, false, n), PiecesText(ps), Lexer(true, false, n))
  {
    hide Walks, PieceText, PieceOk;
    var q := Lexer(true, false, n);
    if |ps| == 0 {
      WalkNone(floor, q);
    } else {
      var front, last := ps[..|ps| - 1], ps[|ps| - 1];
      WalkPieces(floor, n, front);
      WalkPiece(floor, n, last);
      WalkOn(floor, q, PiecesText(front), q, PieceText(last), q);
    }
  }

  lemma WalkString(floor: nat, n: nat, ps: seq<Piece>)
    requires PiecesOk(ps) && floor <= n
    ensures Walks(floor, At(n), StringText(ps), At(n))
  {
    hide Walks, PiecesText, PiecesOk;
    var q := Lexer(true, false, n);
    WalkOne(floor, At(n), '"');
    WalkPieces(floor, n, ps);
    WalkOne(floor, q, '"');
    WalkOn(floor, At(n), "\"", q, PiecesText(ps), q);
    WalkOn(floor, At(n), "\"" + PiecesText(ps), q, "\"", At(n));
  }

  lemma WalkScalar(floor: nat, n: nat, v: Scalar)
    requires ScalarOk(v) && floor <= n
    ensures Walks(floor, At(n), ScalarText(v), At(n))
  {
    hide Walks, PiecesText, PiecesOk, StringText;
    match v
    case Str(ps) => WalkString(floor, n, ps);
    case Num(_, digits) => WalkFlat(floor, n, ScalarText(v));
    case Word(w) => WalkFlat(floor, n, w);
  }

  // One part after another, each leading back to where it began.
  lemma WalkTwo(floor: nat, n: nat, a: string, b: string)
    requires Walks(floor, At(n), a, At(n)) && Walks(floor, At(n), b, At(n))
    ensures Walks(floor, At(n), a + b, At(n))
  {
    hide Walks;
    WalkOn(floor, At(n), a, At(n), b, At(n));
  }

  lemma WalkKey(floor: nat, n: nat, k: Key)
    requires KeyOk(k) && floor <= n
    ensures Walks(floor, At(n), KeyText(k), At(n))
  {
    hide Walks, PiecesOk, StringText, At;
    WalkFlat(floor, n, k.pre);
    WalkString(floor, n, k.name);
    WalkFlat(floor, n, k.mid);
    WalkFlat(floor, n, ":");
    WalkFlat(floor, n, k.post);
    WalkTwo(floor, n, k.pre, StringText(k.name));
    WalkTwo(floor, n, k.pre + StringText(k.name), k.mid);
    WalkTwo(floor, n, k.pre + StringText(k.name) + k.mid, ":");
    WalkTwo(floor, n, k.pre + StringText(k.name) + k.mid + ":", k.post);
  }

  lemma WalkField(floor: nat, n: nat, f: Field)
    requires FieldOk(f) && floor <= n
    ensures Walks(floor, At(n), FieldText(f), At(n))
  {
    hide Walks, KeyOk, ScalarOk, KeyText, ScalarText, At;
    WalkKey(floor, n, f.key);
    WalkScalar(floor, n, f.value);
    WalkFlat(floor, n, f.end);
    WalkTwo(floor, n, KeyText(f.key), ScalarText(f.value));
    WalkTwo(floor, n, KeyText(f.key) + ScalarText(f.value), f.end);
  }

  // Parts separated by commas.
  lemma WalkNext(floor: nat, n: nat, front: string, part: string)
    requires floor <= n
    requires Walks(floor, At(n), front, At(n)) && Walks(floor, At(n), part, At(n))
    ensures Walks(floor, At(n), front + "," + part, At(n))
  {
    hide Walks, At;
    WalkFlat(floor, n, ",");
    WalkTwo(floor, n, front, ",");
    WalkTwo(floor, n, front + ",", part);
  }

  lemma {:induction false} WalkFields(floor: nat, n: nat, fs: seq<Field>)
    requires FieldsOk(fs) && floor <= n
    ensures Walks(floor, At(n), FieldsText(fs), At(n))
  {
    hide Walks, FieldOk, FieldText;
    if |fs| == 0 {
      WalkNone(floor, At(n));
    } else {
      var front, last := fs[..|fs| - 1], fs[|fs| - 1];
      WalkField(floor, n, last);
      if |fs| == 1 {
        assert "" + FieldText(last) == FieldText(last);
      } else {
        WalkFields(floor, n, front);
        WalkNext(floor, n, FieldsText(front), FieldText(last));
      }
    }
  }

  // A container around parts that lead back to where they began.
  lemma WalkInto(floor: nat, n: nat, open: char, inside: string, close: char)
    requires open in ['{', '['] && close in ['}', ']'] && floor <= n
    requires Walks(floor, At(n + 1), inside, At(n + 1))
    ensures Walks(floor, At(n), [open] + inside + [close], At(n))
  {
    hide Walks;
    WalkOne(floor, At(n), open);
    WalkOne(floor, At(n + 1), close);
    WalkOn(floor, At(n), [open], At(n + 1), inside, At(n + 1));
    WalkOn(floor, At(n), [open] + inside, At(n + 1), [close], At(n));
  }

  lemma WalkPack(floor: nat, n: nat, p: PackObject)
    requires PackObjectOk(p) && floor <= n
    ensures Walks(floor, At(n), PackText(p), At(n))
  {
    hide Walks, FieldsOk, FieldsText, At;
    var inside := p.inner + FieldsText(p.fields);
    WalkFlat(floor, n, p.pre);
    WalkFlat(floor, n + 1, p.inner);
    WalkFields(floor, n + 1, p.fields);
    WalkTwo(floor, n + 1, p.inner, FieldsText(p.fields));
    WalkInto(floor, n, '{', inside, '}');
    WalkFlat(floor, n, p.end);
    WalkTwo(floor, n, p.pre, "{" + inside + "}");
    WalkTwo(floor, n, p.pre + ("{" + inside + "}"), p.end);
    assert PackText(p) == p.pre + ("{" + inside + "}") + p.end;
  }

  lemma {:induction false} WalkPacks(floor: nat, n: nat, ps: seq<PackObject>)
    requires PacksOk(ps) && floor <= n
    ensures Walks(floor, At(n), PacksText(ps), At(n))
  {
    hide Walks, PackObjectOk, PackText;
    if |ps| == 0 {
      WalkNone(floor, At(n));
    } else {
      var front, last := ps[..|ps| - 1], ps[|ps| - 1];
      WalkPack(floor, n, last);
      if |ps| == 1 {
        assert "" + PackText(last) == PackText(last);
      } else {
        WalkPacks(floor, n, front);
        WalkNext(floor, n, PacksText(front), PackText(last));
      }
    }
  }

  lemma WalkTok(floor: nat, n: nat, t: Tok)
    requires TokOk(t) && floor <= n && (t.Close? ==> floor < n)
    ensures Walks(floor, At(n), TokText(t), At(if t.Open? then n + 1 else if t.Close? then n - 1 else n))
  {
    hide Walks, PiecesOk, StringText;
    match t
    case Chr(c) => WalkOne(floor, At(n), c);
    case Quote(ps) => WalkString(floor, n, ps);
    case Open(k) => WalkOne(floor, At(n), k);
    case Close(k) => WalkOne(floor, At(n), k);
  }

  lemma FrontOf(ts: seq<Tok>, i: nat)
    requires 0 < i <= |ts|
    ensures ts[..i][..i - 1] == ts[..i - 1] && ts[..i][i - 1] == ts[i - 1] && (i == |ts| ==> ts[..i] == ts)
  {}

  lemma {:induction false} WalkToks(floor: nat, n: nat, ts: seq<Tok>, i: nat)
    requires Nested(ts) && i <= |ts| && floor <= n
    ensures Level(ts[..i]) >= 0 && Walks(floor, At(n), ToksText(ts[..i]), At(n + Level(ts[..i])))
  {
    hide Walks, TokOk, TokText;
    if i == 0 {
      WalkNone(floor, At(n));
    } else {
      var t := ts[i - 1];
      FrontOf(ts, i);
      WalkToks(floor, n, ts, i - 1);
      WalkTok(floor, n + Level(ts[..i - 1]), t);
      WalkOn(floor, At(n), ToksText(ts[..i - 1]), At(n + Level(ts[..i - 1])), TokText(t), At(n + Level(ts[..i])));
    }
  }

  lemma WalkMember(floor: nat, n: nat, m: Member)
    requires MemberOk(m) && floor <= n
    ensures Walks(floor, At(n), MemberText(m), At(n))
  {
    hide Walks, KeyOk, FieldOk, PacksOk, KeyText, FieldText, PacksText, At, ToksText, Nested, Level, Plain;
    match m
    case Plainly(f) => WalkField(floor, n, f);
    case PackList(k, inner, ps, end) =>
      var inside := inner + PacksText(ps);
      WalkKey(floor, n, k);
      WalkFlat(floor, n + 1, inner);
      WalkPacks(floor, n + 1, ps);
      WalkTwo(floor, n + 1, inner, PacksText(ps));
      WalkInto(floor, n, '[', inside, ']');
      WalkFlat(floor, n, end);
      WalkTwo(floor, n, KeyText(k), "[" + inside + "]");
      WalkTwo(floor, n, KeyText(k) + ("[" + inside + "]"), end);
      assert MemberText(m) == KeyText(k) + ("[" + inside + "]") + end;
    case Other(k, ts, end) =>
      WalkKey(floor, n, k);
      WalkNested(floor, n, ts);
      WalkFlat(floor, n, end);
      WalkTwo(floor, n, KeyText(k), ToksText(ts));
      WalkTwo(floor, n, KeyText(k) + ToksText(ts), end);
  }

  lemma WalkNested(floor: nat, n: nat, ts: seq<Tok>)
    requires Nested(ts) && floor <= n
    ensures Walks(floor, At(n), ToksText(ts), At(n))
  {
    hide Walks, ToksText;
    WalkToks(floor, n, ts, |ts|);
    assert ts[..|ts|] == ts;
  }

  lemma {:induction false} WalkMembers(floor: nat, n: nat, ms: seq<Member>)
    requires MembersOk(ms) && floor <= n
    ensures Walks(floor, At(n), MembersText(ms), At(n))
  {
    hide Walks, MemberOk, MemberText;
    if |ms| == 0 {
      WalkNone(floor, At(n));
    } else {
      var front, last := ms[..|ms| - 1], ms[|ms| - 1];
      WalkMember(floor, n, last);
      if |ms| == 1 {
        assert "" + MemberText(last) == MemberText(last);
      } else {
        WalkMembers(floor, n, front);
        WalkNext(floor, n, MembersText(front), MemberText(last));
      }
    }
  }

  // ---- what a cut-off document is worth ----

  // The text of a catalogue up to and with its last member.
  function Unclosed(c: Catalogue): string { c.pre + "{" + (c.inner + MembersText(c.members)) }

  lemma UnclosedBegins(c: Catalogue)
    ensures TextOf(c) == Unclosed(c) + ("}" + c.end)
  {}

  // Anywhere behind the first brace and before the last one the document is open.
  lemma CutIsOpen(c: Catalogue, n: nat)
    requires CatalogueOk(c) && |c.pre| < n <= |Unclosed(c)|
    ensures Lexed(START, Unclosed(c)[..n]).level > 0
  {
    hide Lexed, MembersOk, MembersText;
    var inside := c.inner + MembersText(c.members);
    WalkFlat(0, 0, c.pre);
    WalkOne(0, START, '{');
    WalkOn(0, START, c.pre, START, "{", At(1));
    WalkFlat(1, 1, c.inner);
    WalkMembers(1, 1, c.members);
    WalkTwo(1, 1, c.inner, MembersText(c.members));
    assert Unclosed(c)[..n] == c.pre + "{" + inside[..n - |c.pre| - 1];
    LexConcat(START, c.pre + "{", inside[..n - |c.pre| - 1]);
  }

  // No pass accepts a catalogue cut off before its last brace, wherever it is cut;
  // cut off behind it, all of it is there.
  lemma CutRefused(c: Catalogue, mode: Mode, slots: seq<Slot>, n: nat)
    requires CatalogueOk(c) && n <= |TextOf(c)|
    ensures Usable(Final(mode, slots, TextOf(c)[..n])) <==> n > |Unclosed(c)| && Usable(Final(mode, slots, TextOf(c)))
  {
    hide Usable, Final, MembersText, MembersOk;
    UnclosedBegins(c);
    if n <= |Unclosed(c)| {
      assert TextOf(c)[..n] == Unclosed(c)[..n];
      UnclosedRefused(c, mode, slots, n);
    } else {
      var d := c.(end := c.end[..n - |Unclosed(c)| - 1]);
      UnclosedBegins(d);
      assert TextOf(c)[..n] == TextOf(d);
      TextMeans(c, mode, slots);
      TextMeans(d, mode, slots);
    }
  }

  lemma UnclosedRefused(c: Catalogue, mode: Mode, slots: seq<Slot>, n: nat)
    requires CatalogueOk(c) && n <= |Unclosed(c)|
    ensures !Usable(Final(mode, slots, Unclosed(c)[..n]))
  {
    hide FeedAll, Lexed, MembersText, MembersOk;
    if n <= |c.pre| {
      assert Unclosed(c)[..n] == c.pre[..n];
      FeedSpaces(Fresh(mode, slots), c.pre[..n]);
    } else {
      CutIsOpen(c, n);
      if Usable(Final(mode, slots, Unclosed(c)[..n])) {
        UsableIsClosed(mode, slots, Unclosed(c)[..n]);
      }
    }
  }

  // A lookup finds nothing in it.
  lemma CutFindsNothing(c: Catalogue, n: nat, id: Option<string>, url: Option<string>)
    requires CatalogueOk(c) && n <= |Unclosed(c)|
    ensures FindIn(TextOf(c)[..n], id, url) == None
  {
    hide Usable, Final, Unclosed;
    UnclosedBegins(c);
    CutRefused(c, Find(id, url), [], n);
  }

  // ---- brackets that close each other across their kinds ----

  lemma EndKeepsPack(d: Doc)
    requires d.inPack
    ensures EndContainer(d, ']').inPack
  {}

  lemma SettleKeepsPack(s: State)
    requires s.doc.inPack
    ensures Settle(s).doc.inPack
  {
    hide Signed, Int32;
  }

  lemma FlushKeepsPack(s: State)
    requires s.doc.inPack
    ensures Flush(s).doc.inPack
  {
    hide HandleString;
    StringKeepsPack(s.doc, s.lex);
  }

  lemma StartKeepsPack(d: Doc, packsKey: bool, kind: char)
    requires d.inPack
    ensures StartContainer(d, packsKey, kind).inPack
  {}

  lemma MarkKeepsPack(s: State, c: char)
    requires s.doc.inPack && c != '}'
    ensures Punctuation(s, c).doc.inPack
  {
    hide Flush, SetKey, StartContainer, EndContainer, IsSpace, Digit;
    FlushKeepsPack(s);
    var f := Flush(s);
    EndKeepsPack(f.doc);
    StartKeepsPack(f.doc, f.lex.haveKey && f.lex.key == "packs", c);
  }

  lemma FeedKeepsPack(s: State, c: char)
    requires s.doc.inPack && c != '}'
    ensures Feed(s, c).doc.inPack
  {
    hide Settle, Punctuation, FeedString, FeedDigit;
    SettleKeepsPack(s);
    MarkKeepsPack(Settle(s), c);
  }

  lemma StringKeepsPack(d: Doc, l: Lex)
    requires d.inPack
    ensures HandleString(d, l).inPack
  {
    hide KeepString;
  }

  // A pack that is open stays open until a closing brace.
  lemma {:induction false} PackStaysOpen(s: State, text: string)
    requires s.doc.inPack && '}' !in text
    ensures FeedAll(s, text).doc.inPack
  {
    hide Feed;
    if |text| > 0 {
      PackStaysOpen(s, text[..|text| - 1]);
      FeedKeepsPack(FeedAll(s, text[..|text| - 1]), text[|text| - 1]);
    }
  }

  // The first pack of a list that begins the document is open behind its brace in
  // every pass that looks at packs, and what follows without a closing brace makes
  // no usable document, even if other brackets bring the level back to 0.
  lemma OpenPackRefused(mode: Mode, slots: seq<Slot>, k: Key, rest: string)
    requires KeyOk(k) && Plain(k.name) == "packs" && !mode.Header? && '}' !in rest
    ensures !Usable(Final(mode, slots, "{" + KeyText(k) + "[{" + rest))
  {
    hide Feed, FeedAll, KeyText, KeyOk, Plain;
    var s := Fresh(mode, slots);
    OpenLands(s, '{');
    var s1 := FeedAll(s, "{");
    KeyFeeds(s1, k);
    FeedConcat(s, "{", KeyText(k));
    var s2 := FeedAll(s1, KeyText(k));
    OpenLands(s2, '[');
    var s3 := FeedAll(s2, "[");
    OpenLands(s3, '{');
    var s4 := FeedAll(s3, "{");
    FeedConcat(s2, "[", "{");
    assert "[" + "{" == "[{";
    FeedConcat(s, "{" + KeyText(k), "[{");
    PackStaysOpen(s4, rest);
    FeedConcat(s, "{" + KeyText(k) + "[{", rest);
  }
}
