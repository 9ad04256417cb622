/**
 The streaming catalogue reader: one pass over the JSON text, one character at a
 time, keeping one token and one pack. The functions give the next state; the
 class below changes it in place and agrees with them.
 */
module CatalogIndex {
  import opened Bytes
  import opened Options

  const TOKEN_CAP := 96
  const ID_CAP := 48
  const NAME_CAP := 48
  const URL_CAP := 96
  const SHA_CAP := 65
  const STAMP_CAP := 32
  const INT64_MAX := 0x7FFF_FFFF_FFFF_FFFF
  const NUL := 0 as char
  const BACKSPACE := 8 as char
  const FORM_FEED := 12 as char

  datatype Pack = Pack(id: string, name: string, url: string, sha256: string, bytes: int, version: int, articles: int,
                       complete: bool)

  const NO_PACK := Pack("", "", "", "", -1, 0, 0, false)

  // One display name to fill: out holds cap bytes.
  datatype Slot = Slot(id: Option<string>, cap: nat, out: string)

  // The pass being made.
  datatype Mode = Header | Find(id: Option<string>, url: Option<string>) | Names | Validate

  // The token being read.
  datatype Lex = Lex(inString: bool, escape: bool, overflow: bool, token: string, tokenLen: nat, pending: bool,
                     key: string, haveKey: bool, active: bool, negative: bool, tooBig: bool, number: nat)

  // Where the reader is in the document, and the answer so far.
  datatype Doc = Doc(mode: Mode, failed: bool, done: bool, depth: nat, inPacks: bool, packsDepth: nat, inPack: bool,
                     pack: Pack, found: Pack, slots: seq<Slot>, filled: nat, entries: nat,
                     schema: int, version: int, stamp: string)

  datatype State = State(lex: Lex, doc: Doc)

  const NO_TOKEN := Lex(false, false, false, "", 0, false, "", false, false, false, false, 0)

  function Fresh(mode: Mode, slots: seq<Slot>): State {
    State(NO_TOKEN, Doc(mode, false, false, 0, false, 0, false,
                        Pack("", "", "", "", 0, 0, 0, false), Pack("", "", "", "", 0, 0, 0, false), slots, 0, 0, 0, 0, ""))
  }

  // ---- values ----

  function CString(s: string): (r: string)
    ensures |r| <= |s|
  {
    if |s| == 0 || s[0] == NUL then "" else [s[0]] + CString(s[1..])
  }

  // Conversion of a 64-bit value to int.
  function Int32(n: int): (r: int)
    ensures -0x8000_0000 <= r < 0x8000_0000
    ensures -0x8000_0000 <= n < 0x8000_0000 ==> r == n
  {
    (n + 0x8000_0000) % U32 - 0x8000_0000
  }

  // copy_bounded of the token.
  function Copied(l: Lex, cap: nat): Option<string> {
    if l.tokenLen >= cap then None else Some(CString(l.token))
  }

  function Fits(l: Lex, cap: nat): Option<string> { if l.overflow then None else Copied(l, cap) }

  // The pack with the token as the value of its key, or nothing if it is too long.
  function KeepString(p: Pack, l: Lex): Option<Pack> {
    if l.key == "id" then if Fits(l, ID_CAP).Some? then Some(p.(id := Fits(l, ID_CAP).value)) else None
    else if l.key == "name" then if Fits(l, NAME_CAP).Some? then Some(p.(name := Fits(l, NAME_CAP).value)) else None
    else if l.key == "url" then if Fits(l, URL_CAP).Some? then Some(p.(url := Fits(l, URL_CAP).value)) else None
    else if l.key == "sha256" then if Fits(l, SHA_CAP).Some? then Some(p.(sha256 := Fits(l, SHA_CAP).value)) else None
    else Some(p)
  }

  // handle_string_value
  function HandleString(d: Doc, l: Lex): Doc {
    if d.depth == 1 then
      if l.key == "generated_at" && Copied(l, STAMP_CAP).Some? then d.(stamp := Copied(l, STAMP_CAP).value) else d
    else if !d.inPack then d
    else if KeepString(d.pack, l).Some? then d.(pack := KeepString(d.pack, l).value)
    else d.(failed := true)
  }

  // handle_number_value
  function HandleNumber(d: Doc, l: Lex): Doc {
    if l.tooBig then if d.inPack then d.(failed := true) else d
    else NumberAt(d, l.key, Signed(l.negative, l.number))
  }

  function Signed(negative: bool, n: nat): int { if negative then 0 - n else n }

  function NumberAt(d: Doc, key: string, value: int): Doc {
    if d.depth == 1 then
      if key == "schema" then d.(schema := Int32(value))
      else if key == "catalog_version" then d.(version := Int32(value))
      else d
    else if !d.inPack then d
    else if key == "bytes" then d.(pack := d.pack.(bytes := value))
    else if key == "version" then d.(pack := d.pack.(version := Int32(value)))
    else if key == "articles" then d.(pack := d.pack.(articles := Int32(value)))
    else d
  }

  predicate Complete(p: Pack) { p.id != "" && p.url != "" && p.sha256 != "" && p.bytes >= 0 }

  predicate Wanted(mode: Mode, p: Pack) {
    mode.Find? && (mode.id == Some(p.id) || mode.url == Some(p.url))
  }

  // The slots loop of close_pack, from slot i on.
  function FillSlots(d: Doc, p: Pack, i: nat): Doc
    requires i <= |d.slots|
    decreases |d.slots| - i
  {
    if i == |d.slots| then d
    else
      var slot := d.slots[i];
      if slot.id != Some(p.id) then FillSlots(d, p, i + 1)
      else if p.name != "" && |p.name| >= slot.cap then d.(failed := true)
      else
        var n := d.filled + 1;
        FillSlots(d.(slots := d.slots[i := slot.(out := if p.name != "" then p.name else slot.out)], filled := n,
                     done := d.done || n == |d.slots|), p, i + 1)
  }

  lemma FillSlotsStep(d: Doc, p: Pack, i: nat)
    requires i <= |d.slots|
    ensures i == |d.slots| ==> FillSlots(d, p, i) == d
    ensures i < |d.slots| ==>
              var slot, n := d.slots[i], d.filled + 1;
              FillSlots(d, p, i) ==
              if slot.id != Some(p.id) then FillSlots(d, p, i + 1)
              else if p.name != "" && |p.name| >= slot.cap then d.(failed := true)
              else FillSlots(d.(slots := d.slots[i := slot.(out := if p.name != "" then p.name else slot.out)],
                                filled := n, done := d.done || n == |d.slots|), p, i + 1)
  {}

  // close_pack
  function Closed(d: Doc): Doc {
    if !Complete(d.pack) then d.(inPack := false, failed := true)
    else
      var p := d.pack.(complete := true);
      var d1 := d.(inPack := false, pack := p, entries := d.entries + 1);
      if d.mode.Find? then if Wanted(d.mode, p) then d1.(found := p, done := true) else d1
      else FillSlots(d1, p, 0)
  }

  // start_container, given whether the key before it is "packs"
  function StartContainer(d: Doc, packsKey: bool, kind: char): Doc {
    var d1 := d.(depth := d.depth + 1);
    if kind == '[' && packsKey && d1.depth == 2 then d1.(inPacks := true, packsDepth := 2)
    else if kind == '{' && d.inPacks && d1.depth == d.packsDepth + 1 && !d.mode.Header? && !d.done then
      d1.(inPack := true, pack := NO_PACK)
    else d1
  }

  // end_container
  function EndContainer(d: Doc, kind: char): Doc {
    var d1 := d.(depth := if d.depth > 0 then d.depth - 1 else 0);
    if kind == '}' && d.inPack && d1.depth == d.packsDepth then Closed(d1)
    else if kind == ']' && d.inPacks && d1.depth == d.packsDepth - 1 then d1.(inPacks := false)
    else d1
  }

  // ---- one character ----

  function Decoded(c: char): char {
    match c
    case 'n' => '\n'
    case 't' => '\t'
    case 'r' => '\r'
    case 'b' => BACKSPACE
    case 'f' => FORM_FEED
    case _ => c
  }

  function FeedString(l: Lex, c: char): Lex {
    if l.escape then
      var l1 := l.(escape := false);
      if l.overflow then l1.(tokenLen := l.tokenLen + 1)
      else if l.tokenLen < TOKEN_CAP - 1 then l1.(token := l.token + [Decoded(c)], tokenLen := l.tokenLen + 1)
      else l1.(overflow := true)
    else if c == '\\' then l.(escape := true)
    else if c == '"' then l.(inString := false, pending := true)
    else if l.tokenLen < TOKEN_CAP - 1 && !l.overflow then l.(token := l.token + [c], tokenLen := l.tokenLen + 1)
    else l.(overflow := true, tokenLen := l.tokenLen + 1)
  }

  predicate IsDigit(c: char) { '0' <= c <= '9' }

  function Digit(c: char): (n: nat)
    requires IsDigit(c)
    ensures n < 10
  {
    c as int - '0' as int
  }

  function FeedDigit(l: Lex, c: char): Lex
    requires IsDigit(c)
  {
    if Overflows(l.number, Digit(c)) then l.(tooBig := true) else l.(number := l.number * 10 + Digit(c))
  }

  // Appending the digit would pass INT64_MAX.
  predicate Overflows(n: nat, digit: nat) { n > (INT64_MAX - digit) / 10 }

  // A number ends at the first character that is not a digit.
  function Settle(s: State): State {
    if s.lex.active then State(s.lex.(active := false), HandleNumber(s.doc, s.lex)) else s
  }

  // flush_pending_string
  function Flush(s: State): State {
    if s.lex.pending then State(s.lex.(pending := false, haveKey := false), HandleString(s.doc, s.lex)) else s
  }

  function SetKey(l: Lex): Lex {
    l.(key := if Copied(l, TOKEN_CAP).Some? then Copied(l, TOKEN_CAP).value else l.key, haveKey := true, pending := false)
  }

  predicate IsSpace(c: char) { c == ' ' || c == '\t' || c == '\r' || c == '\n' }

  function Punctuation(s: State, c: char): State {
    if IsSpace(c) then s
    else if c == '"' then s.(lex := s.lex.(inString := true, escape := false, overflow := false, token := "", tokenLen := 0))
    else if c == ':' then if s.lex.pending then s.(lex := SetKey(s.lex)) else s
    else if c == '{' || c == '[' then
      var f := Flush(s);
      State(f.lex.(haveKey := false), StartContainer(f.doc, f.lex.haveKey && f.lex.key == "packs", c))
    else if c == '}' || c == ']' then
      var f := Flush(s);
      State(f.lex.(haveKey := false), EndContainer(f.doc, c))
    else if c == ',' then
      var f := Flush(s);
      f.(lex := f.lex.(haveKey := false))
    else if c == '-' then s.(lex := s.lex.(active := true, negative := true, number := 0, tooBig := false))
    else if IsDigit(c) then s.(lex := s.lex.(active := true, negative := false, number := Digit(c), tooBig := false))
    else s
  }

  // feed
  function Feed(s: State, c: char): State {
    if s.doc.failed then s
    else if s.lex.inString then s.(lex := FeedString(s.lex, c))
    else if s.lex.active && IsDigit(c) then s.(lex := FeedDigit(s.lex, c))
    else
      var s1 := Settle(s);
      if s1.doc.failed then s1 else Punctuation(s1, c)
  }

  function FeedAll(s: State, text: string): State {
    if |text| == 0 then s else Feed(FeedAll(s, text[..|text| - 1]), text[|text| - 1])
  }

  // Cutting the text anywhere does not matter.
  lemma {:induction false} FeedConcat(s: State, a: string, b: string)
    ensures FeedAll(s, a + b) == FeedAll(FeedAll(s, a), b)
  {
    hide Feed;
    if |b| == 0 {
      assert a + b == a;
    } else {
      FeedConcat(s, a, b[..|b| - 1]);
      assert (a + b)[..|a + b| - 1] == a + b[..|b| - 1];
    }
  }

  lemma FeedOne(s: State, c: char)
    ensures FeedAll(s, [c]) == Feed(s, c)
  {
    hide Feed;
    assert [c][..0] == [];
  }

  lemma {:induction false} FeedFailed(s: State, text: string)
    requires s.doc.failed
    ensures FeedAll(s, text) == s
  {
    if |text| > 0 {
      FeedFailed(s, text[..|text| - 1]);
    }
  }

  // What run makes of the final state.
  predicate Usable(s: State) {
    !s.lex.inString && s.doc.depth == 0 && !s.doc.inPack && !s.doc.failed && s.doc.schema == 1
  }

  // ---- the reader ----

  // One call of the byte source: an error, or some characters, none at the end.
  datatype Read = Failure | Chars(text: string)

  // What the source delivers before it reports the end or an error.
  function Delivered(input: seq<Read>): string {
    if |input| == 0 || input[0].Failure? || input[0].text == "" then "" else input[0].text + Delivered(input[1..])
  }

  predicate Breaks(input: seq<Read>) {
    |input| > 0 && (input[0].Failure? || (input[0].text != "" && Breaks(input[1..])))
  }

  class Scanner {
    var lex: Lex
    var doc: Doc

    ghost function Now(): State
      reads this
    {
      State(lex, doc)
    }

    constructor (mode: Mode, slots: seq<Slot>)
      ensures Now() == Fresh(mode, slots)
    {
      lex, doc := NO_TOKEN, Fresh(mode, slots).doc;
    }

    method ClosePack()
      modifies this`doc
      ensures doc == Closed(old(doc))
    {
      hide FillSlots, Complete;
      doc := doc.(inPack := false);
      if !Complete(doc.pack) {
        doc := doc.(failed := true);
        return;
      }
      var pack := doc.pack.(complete := true);
      doc := doc.(pack := pack, entries := doc.entries + 1);
      if doc.mode.Find? {
        if doc.mode.id == Some(pack.id) || doc.mode.url == Some(pack.url) {
          doc := doc.(found := pack, done := true);
        }
        return;
      }
      ghost var closing := doc;
      for i := 0 to |doc.slots|
        invariant |doc.slots| == |closing.slots|
        invariant FillSlots(doc, pack, i) == FillSlots(closing, pack, 0)
      {
        FillSlotsStep(doc, pack, i);
        var slot := doc.slots[i];
        if slot.id == Some(pack.id) {
          if pack.name != "" {
            if |pack.name| >= slot.cap {
              doc := doc.(failed := true);
              return;
            }
            slot := slot.(out := pack.name);
          }
          doc := doc.(slots := doc.slots[i := slot], filled := doc.filled + 1);
          if doc.filled == |doc.slots| {
            doc := doc.(done := true);
          }
        }
      }
      FillSlotsStep(doc, pack, |doc.slots|);
    }

    method FlushPending()
      modifies this
      ensures Now() == Flush(old(Now()))
    {
      hide HandleString;
      if lex.pending {
        doc := HandleString(doc, lex);
        lex := lex.(pending := false, haveKey := false);
      }
    }

    method FeedChar(c: char)
      modifies this
      ensures Now() == Feed(old(Now()), c)
    {
      hide Punctuation, FeedString, FeedDigit;
      if doc.failed {
        return;
      }
      if lex.inString {
        lex := FeedString(lex, c);
        return;
      }
      if lex.active {
        if IsDigit(c) {
          lex := FeedDigit(lex, c);
          return;
        }
        lex := lex.(active := false);
        doc := HandleNumber(doc, lex);
        if doc.failed {
          return;
        }
      }
      Punctuate(c);
    }

    // The switch at the end of feed.
    method Punctuate(c: char)
      modifies this
      ensures Now() == Punctuation(old(Now()), c)
    {
      hide HandleString, StartContainer, EndContainer;
      if IsSpace(c) {
        return;
      }
      if c == '"' {
        lex := lex.(inString := true, escape := false, overflow := false, token := "", tokenLen := 0);
      } else if c == ':' {
        if lex.pending {
          lex := SetKey(lex);
        }
      } else if c == '{' || c == '[' {
        FlushPending();
        doc := StartContainer(doc, lex.haveKey && lex.key == "packs", c);
        lex := lex.(haveKey := false);
      } else if c == '}' || c == ']' {
        FlushPending();
        CloseContainer(c);
        lex := lex.(haveKey := false);
      } else if c == ',' {
        FlushPending();
        lex := lex.(haveKey := false);
      } else if c == '-' {
        lex := lex.(active := true, negative := true, number := 0, tooBig := false);
      } else if IsDigit(c) {
        lex := lex.(active := true, negative := false, number := Digit(c), tooBig := false);
      }
    }

    // end_container
    method CloseContainer(kind: char)
      modifies this`doc
      ensures doc == EndContainer(old(doc), kind)
    {
      hide Closed;
      if doc.depth > 0 {
        doc := doc.(depth := doc.depth - 1);
      }
      if kind == '}' && doc.inPack && doc.depth == doc.packsDepth {
        ClosePack();
      } else if kind == ']' && doc.inPacks && doc.depth == doc.packsDepth - 1 {
        doc := doc.(inPacks := false);
      }
    }

    // The inner loop of run, over one read.
    method FeedText(text: string) returns (ok: bool)
      requires !doc.failed
      modifies this
      ensures Now() == FeedAll(old(Now()), text) && (ok <==> !doc.failed)
    {
      hide Feed;
      ghost var start := Now();
      assert text[..0] == "";
      for i := 0 to |text|
        invariant Now() == FeedAll(start, text[..i]) && !doc.failed
      {
        FeedChar(text[i]);
        assert text[..i + 1][..i] == text[..i];
        if doc.failed {
          FeedFailed(Now(), text[i + 1..]);
          FeedConcat(start, text[..i + 1], text[i + 1..]);
          assert text == text[..i + 1] + text[i + 1..];
          return false;
        }
      }
      assert text[..|text|] == text;
      ok := true;
    }

    // run: reads until the end, an error, or a failure.
    method Run(input: seq<Read>) returns (ok: bool)
      requires !doc.failed
      modifies this
      ensures Now() == FeedAll(old(Now()), Delivered(input))
      ensures ok <==> !Breaks(input) && Usable(Now())
    {
      hide Feed, FeedAll;
      ghost var start := Now();
      FeedNothing(start);
      for k := 0 to |input|
        invariant !doc.failed && FeedAll(start, Delivered(input)) == FeedAll(Now(), Delivered(input[k..]))
        invariant Breaks(input) == Breaks(input[k..])
      {
        if input[k].Failure? {
          FeedNothing(Now());
          return false;
        }
        var text := input[k].text;
        if text == "" {
          break;
        }
        ghost var before := Now();
        var fed := FeedText(text);
        FeedConcat(before, text, Delivered(input[k + 1..]));
        assert input[k..][1..] == input[k + 1..];
        if !fed {
          FeedFailed(FeedAll(before, text), Delivered(input[k + 1..]));
          return false;
        }
      }
      FeedNothing(Now());
      ok := !lex.inString && doc.depth == 0 && !doc.inPack && !doc.failed && doc.schema == 1;
    }
  }

  lemma FeedNothing(s: State)
    ensures FeedAll(s, "") == s
  {}

  // ---- the passes, as functions of the whole text ----

  function Final(mode: Mode, slots: seq<Slot>, text: string): State { FeedAll(Fresh(mode, slots), text) }

  function FindIn(text: string, id: Option<string>, url: Option<string>): Option<Pack> {
    var s := Final(Find(id, url), [], text);
    if Usable(s) && s.doc.done && s.doc.found.complete then Some(s.doc.found) else None
  }

  // pw_catalog_find
  method FindPack(input: seq<Read>, id: Option<string>, url: Option<string>) returns (r: Option<Pack>)
    ensures r == if Breaks(input) || (id.None? && url.None?) then None else FindIn(Delivered(input), id, url)
  {
    hide Feed, FeedAll;
    if id.None? && url.None? {
      return None;
    }
    var s := new Scanner(Find(id, url), []);
    var ok := s.Run(input);
    r := if ok && s.doc.done && s.doc.found.complete then Some(s.doc.found) else None;
  }

  // pw_catalog_names: how many names were filled, and the slots. The buffers hold
  // what was written to them even if the document turns out unusable.
  method FillNames(input: seq<Read>, slots: seq<Slot>) returns (filled: nat, out: seq<Slot>)
    ensures var s := Final(Names, slots, Delivered(input));
            && filled == (if |slots| > 0 && !Breaks(input) && Usable(s) then s.doc.filled else 0)
            && out == if |slots| > 0 then s.doc.slots else slots
  {
    hide Feed, FeedAll;
    if |slots| == 0 {
      return 0, slots;
    }
    var s := new Scanner(Names, slots);
    var ok := s.Run(input);
    filled, out := if ok then s.doc.filled else 0, s.doc.slots;
  }

  // pw_catalog_validate
  method ValidateText(input: seq<Read>) returns (ok: bool)
    ensures ok <==> !Breaks(input) && Usable(Final(Validate, [], Delivered(input)))
                    && Final(Validate, [], Delivered(input)).doc.entries > 0
  {
    hide Feed, FeedAll;
    var s := new Scanner(Validate, []);
    ok := s.Run(input);
    ok := ok && s.doc.entries > 0;
  }

  // pw_catalog_read_header
  method ReadHeader(input: seq<Read>) returns (ok: bool, version: int, stamp: string)
    ensures ok <==> !Breaks(input) && Usable(Final(Header, [], Delivered(input)))
    ensures var d := Final(Header, [], Delivered(input)).doc; version == d.version && stamp == d.stamp
  {
    hide Feed, FeedAll;
    var s := new Scanner(Header, []);
    ok := s.Run(input);
    version, stamp := s.doc.version, s.doc.stamp;
  }
}
