/**
 Title normalization: the canonical search form of a title, which the packer
 (Python) and the firmware (C) must compute alike. Both programs are specified
 by the same function: split on ASCII whitespace, lower-case A to Z, join with
 single spaces.
 */
module TitleNormalize {
  import opened Bytes

  predicate IsSpace(b: byte) { b == 0x20 || 0x09 <= b <= 0x0D }

  function Lower(b: byte): byte { if 0x41 <= b <= 0x5A then b + 0x20 else b }

  // Whether another byte that is not whitespace would lengthen the last word.
  predicate InWord(s: seq<byte>) { |s| > 0 && !IsSpace(s[|s| - 1]) }

  // The words of s: a byte that is not whitespace lengthens the last word or
  // starts a new one.
  function Words(s: seq<byte>): (w: seq<seq<byte>>)
    ensures InWord(s) ==> |w| > 0
    ensures forall i :: 0 <= i < |w| ==> |w[i]| > 0
  {
    if |s| == 0 then []
    else
      var n := |s| - 1;
      var w := Words(s[..n]);
      if IsSpace(s[n]) then w
      else if InWord(s[..n]) then w[|w| - 1 := w[|w| - 1] + [s[n]]]
      else w + [[s[n]]]
  }

  function LowerAll(s: seq<byte>): (r: seq<byte>)
    ensures |r| == |s|
  {
    seq(|s|, i requires 0 <= i < |s| => Lower(s[i]))
  }

  function Join(words: seq<seq<byte>>): seq<byte> {
    if |words| == 0 then []
    else if |words| == 1 then words[0]
    else Join(words[..|words| - 1]) + [0x20] + words[|words| - 1]
  }

  function Normal(s: seq<byte>): seq<byte> { LowerAll(Join(Words(s))) }

  // ---- Words is the split on whitespace ----

  predicate Clean(w: seq<byte>) { |w| > 0 && forall i :: 0 <= i < |w| ==> !IsSpace(w[i]) }

  lemma {:induction false} WordsAreClean(s: seq<byte>)
    ensures forall i :: 0 <= i < |Words(s)| ==> Clean(Words(s)[i])
  {
    if |s| > 0 {
      WordsAreClean(s[..|s| - 1]);
    }
  }

  lemma WordsSnoc(s: seq<byte>, b: byte)
    ensures Words(s + [b]) ==
            if IsSpace(b) then Words(s)
            else if InWord(s) then Words(s)[|Words(s)| - 1 := Words(s)[|Words(s)| - 1] + [b]]
            else Words(s) + [[b]]
  {
    assert (s + [b])[..|s|] == s;
  }

  // A word after a whitespace byte, or at the start, is split off whole.
  lemma {:induction false} WordsAppend(s: seq<byte>, w: seq<byte>)
    requires !InWord(s) && Clean(w)
    ensures Words(s + w) == Words(s) + [w]
  {
    hide Words;
    var n := |w| - 1;
    var w', b := w[..n], w[n];
    assert s + w == (s + w') + [b];
    WordsSnoc(s + w', b);
    if n == 0 {
      assert s + w' == s && w == [b];
    } else {
      WordsAppend(s, w');
      assert w == w' + [b];
    }
  }

  // A space ends the word before it.
  lemma SpaceEnds(s: seq<byte>)
    ensures Words(s + [0x20]) == Words(s) && !InWord(s + [0x20])
  {
    WordsSnoc(s, 0x20);
  }

  lemma NoWords()
    ensures Words([]) == [] && !InWord([])
  {}

  lemma {:induction false} WordsOfJoin(ws: seq<seq<byte>>)
    requires forall i :: 0 <= i < |ws| ==> Clean(ws[i])
    ensures Words(Join(ws)) == ws
  {
    hide Words, InWord, Clean;
    NoWords();
    var n := |ws| - 1;
    if n >= 0 {
      var a, w := Join(ws[..n]), ws[n];
      WordsOfJoin(ws[..n]);
      assert ws == ws[..n] + [w];
      if n == 0 {
        WordsAppend([], w);
        assert [] + w == w;
      } else {
        SpaceEnds(a);
        WordsAppend(a + [0x20], w);
      }
    }
  }

  // ---- normalization is idempotent and never longer than its input ----

  function LowerWords(ws: seq<seq<byte>>): (r: seq<seq<byte>>)
    ensures |r| == |ws|
  {
    seq(|ws|, i requires 0 <= i < |ws| => LowerAll(ws[i]))
  }

  lemma {:induction false} LowerJoin(ws: seq<seq<byte>>)
    ensures LowerAll(Join(ws)) == Join(LowerWords(ws))
  {
    var n := |ws| - 1;
    if n >= 1 {
      LowerJoin(ws[..n]);
      assert LowerWords(ws)[..n] == LowerWords(ws[..n]);
    }
  }

  lemma NormalIsJoin(s: seq<byte>)
    ensures Normal(s) == Join(LowerWords(Words(s)))
    ensures forall i :: 0 <= i < |Words(s)| ==> Clean(LowerWords(Words(s))[i])
  {
    LowerJoin(Words(s));
    WordsAreClean(s);
  }

  lemma NormalIdempotent(s: seq<byte>)
    ensures Normal(Normal(s)) == Normal(s)
  {
    var ws := LowerWords(Words(s));
    NormalIsJoin(s);
    WordsOfJoin(ws);
    LowerJoin(ws);
    assert LowerWords(ws) == ws by {
      forall i | 0 <= i < |ws| ensures LowerAll(ws[i]) == ws[i] {}
    }
  }

  lemma JoinNew(ws: seq<seq<byte>>, w: seq<byte>)
    ensures Join(ws + [w]) == if |ws| == 0 then w else Join(ws) + [0x20] + w
  {
    assert (ws + [w])[..|ws|] == ws;
  }

  lemma JoinLonger(ws: seq<seq<byte>>, b: byte)
    requires |ws| > 0
    ensures Join(ws[|ws| - 1 := ws[|ws| - 1] + [b]]) == Join(ws) + [b]
  {
    var ws' := ws[|ws| - 1 := ws[|ws| - 1] + [b]];
    assert ws'[..|ws| - 1] == ws[..|ws| - 1];
  }

  // What one more byte adds to the joined words.
  lemma JoinStep(s: seq<byte>, b: byte)
    ensures Join(Words(s + [b])) ==
            if IsSpace(b) then Join(Words(s))
            else if InWord(s) || |Words(s)| == 0 then Join(Words(s)) + [b]
            else Join(Words(s)) + [0x20, b]
  {
    WordsSnoc(s, b);
    if !IsSpace(b) {
      if InWord(s) { JoinLonger(Words(s), b); } else { JoinNew(Words(s), [b]); }
    }
  }

  lemma {:induction false} JoinLength(s: seq<byte>)
    ensures |Join(Words(s))| <= |s|
    ensures |s| > 0 && IsSpace(s[|s| - 1]) ==> |Join(Words(s))| <= |s| - 1
    ensures |Join(Words(s))| == 0 <==> |Words(s)| == 0
  {
    if |s| > 0 {
      var n := |s| - 1;
      JoinLength(s[..n]);
      JoinStep(s[..n], s[n]);
      assert s == s[..n] + [s[n]];
    }
  }

  lemma NormalNoLonger(s: seq<byte>)
    ensures |Normal(s)| <= |s|
  {
    JoinLength(s);
  }

  // ---- the firmware's normalization ----

  lemma {:induction false} LeadingSpace(s: seq<byte>)
    requires forall i :: 0 <= i < |s| ==> IsSpace(s[i])
    ensures Words(s) == []
  {
    if |s| > 0 {
      LeadingSpace(s[..|s| - 1]);
    }
  }

  lemma {:induction false} TrailingSpace(s: seq<byte>, n: nat)
    requires n <= |s| && forall i :: n <= i < |s| ==> IsSpace(s[i])
    ensures Words(s) == Words(s[..n])
  {
    if n < |s| {
      TrailingSpace(s[..|s| - 1], n);
      assert s[..|s| - 1][..n] == s[..n];
    } else {
      assert s[..n] == s;
    }
  }

  // Bounds of s without its leading and trailing whitespace.
  method Trim(s: seq<byte>) returns (lo: nat, hi: nat)
    ensures lo <= hi <= |s|
    ensures forall i :: 0 <= i < lo ==> IsSpace(s[i])
    ensures forall i :: hi <= i < |s| ==> IsSpace(s[i])
  {
    lo, hi := 0, |s|;
    while lo < hi && IsSpace(s[lo])
      invariant lo <= hi && forall i :: 0 <= i < lo ==> IsSpace(s[i])
    {
      lo := lo + 1;
    }
    while hi > lo && IsSpace(s[hi - 1])
      invariant lo <= hi <= |s| && forall i :: hi <= i < |s| ==> IsSpace(s[i])
    {
      hi := hi - 1;
    }
  }

  lemma LowerStep(s: seq<byte>, b: byte)
    ensures Normal(s + [b]) ==
            if IsSpace(b) then Normal(s)
            else if InWord(s) || |Normal(s)| == 0 then Normal(s) + [Lower(b)]
            else Normal(s) + [0x20, Lower(b)]
    ensures |Normal(s)| <= |s| && |Normal(s + [b])| <= |s| + 1
  {
    JoinStep(s, b);
    JoinLength(s);
    JoinLength(s + [b]);
    hide Join, Words;
    var j := Join(Words(s));
    assert LowerAll(j + [b]) == LowerAll(j) + [Lower(b)];
    assert LowerAll(j + [0x20, b]) == LowerAll(j) + [0x20, Lower(b)];
  }

  // tl_normalize: out needs no more room than the title.
  method Normalize(title: seq<byte>, out: array<byte>) returns (o: nat)
    requires |title| <= out.Length
    modifies out
    ensures o <= |title| && out[..o] == Normal(title)
  {
    hide Normal, InWord;
    var lo, hi := Trim(title);
    o := 0;
    var pendingSpace := false;
    NormalBlank(title[..lo]);
    for k := lo to hi
      invariant o <= k && out[..o] == Normal(title[..k])
      invariant o > 0 ==> pendingSpace == !InWord(title[..k])
      invariant o == 0 ==> Normal(title[..k]) == []
    {
      var b := title[k];
      LowerStep(title[..k], b);
      assert title[..k + 1] == title[..k] + [b];
      InWordSnoc(title[..k], b);
      if IsSpace(b) {
        pendingSpace := true;
        continue;
      }
      if pendingSpace && o > 0 {
        out[o] := 0x20;
        o := o + 1;
      }
      pendingSpace := false;
      out[o] := Lower(b);
      o := o + 1;
    }
    NormalTrimmed(title, hi);
  }

  lemma InWordSnoc(s: seq<byte>, b: byte)
    ensures InWord(s + [b]) == !IsSpace(b)
  {}

  lemma NormalBlank(s: seq<byte>)
    requires forall i :: 0 <= i < |s| ==> IsSpace(s[i])
    ensures Normal(s) == []
  {
    LeadingSpace(s);
  }

  lemma NormalTrimmed(s: seq<byte>, n: nat)
    requires n <= |s| && forall i :: n <= i < |s| ==> IsSpace(s[i])
    ensures Normal(s) == Normal(s[..n])
  {
    TrailingSpace(s, n);
  }

  // ---- the packer's normalization ----

  // normalize_title on the bytes of a title.
  method NormalizeTitle(raw: seq<byte>) returns (out: seq<byte>)
    ensures out == Normal(raw)
  {
    hide Normal, InWord;
    var lo, hi := Trim(raw);
    var s := raw[lo..hi];
    out := [];
    var pendingSpace := false;
    NormalBlank(raw[..lo]);
    for k := 0 to |s|
      invariant out == Normal(raw[..lo + k])
      invariant |out| > 0 ==> pendingSpace == !InWord(raw[..lo + k])
    {
      var b := s[k];
      LowerStep(raw[..lo + k], b);
      assert raw[..lo + k + 1] == raw[..lo + k] + [b];
      InWordSnoc(raw[..lo + k], b);
      if IsSpace(b) {
        pendingSpace := true;
        continue;
      }
      if pendingSpace && |out| > 0 {
        out := out + [0x20];
      }
      pendingSpace := false;
      out := out + [Lower(b)];
    }
    assert lo + |s| == hi;
    NormalTrimmed(raw, hi);
  }
}
