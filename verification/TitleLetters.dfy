/**
 What normalization and word matching make of the letters: white space, capitals
 and the bytes of a word are written out, and the normal form of a title follows
 from those of its parts.
 */
module TitleLetters {
  import opened Alphabet
  import opened Bytes
  import opened TitleNormalize
  import opened TitleLookup

  // ---- letters ----

  // Space, tab, line feed, carriage return, vertical tab, form feed.
  const WHITE: seq<byte> := [0x20, 0x09, 0x0A, 0x0D, 0x0B, 0x0C]

  // The byte is the character's code.
  predicate Is(b: byte, c: char) { b as int == c as int }

  predicate Among(b: byte, chars: string) { exists i :: 0 <= i < |chars| && Is(b, chars[i]) }

  lemma WhiteSpace(b: byte)
    ensures IsSpace(b) <==> b in WHITE
  {}

  // A capital becomes the small letter of the same place in the alphabet; every
  // other byte stays.
  lemma LowerLetters(b: byte, i: nat)
    requires i < 26
    ensures Is(b, UPPER[i]) ==> Is(Lower(b), LOWER[i])
    ensures !Among(b, UPPER) ==> Lower(b) == b
  {
    assert forall k :: 0 <= k < 26 ==> UPPER[k] as int == 65 + k && LOWER[k] as int == 97 + k;
    if 65 <= b <= 90 {
      assert Is(b, UPPER[b as int - 65]);
    }
  }

  predicate WordChar(b: byte) { b >= 128 || Among(b, LOWER) || Among(b, DIGITS) || Among(b, UPPER) || Is(b, '\'') }

  lemma WordBytes(b: byte)
    ensures WordByte(b) <==> WordChar(b)
  {
    assert forall k :: 0 <= k < 26 ==> UPPER[k] as int == 65 + k && LOWER[k] as int == 97 + k;
    assert forall k :: 0 <= k < 10 ==> DIGITS[k] as int == 48 + k;
    if 65 <= b <= 90 {
      assert Is(b, UPPER[b as int - 65]);
    } else if 97 <= b <= 122 {
      assert Is(b, LOWER[b as int - 97]);
    } else if 48 <= b <= 57 {
      assert Is(b, DIGITS[b as int - 48]);
    }
  }

  // ---- the normal form from its parts ----

  lemma SplitEnds(a: seq<byte>, b: byte, c: seq<byte>)
    requires IsSpace(b)
    ensures InWord(a + [b] + c) == InWord(c)
  {
    hide IsSpace;
    if |c| == 0 {
      assert a + [b] + c == a + [b];
    } else {
      assert (a + [b] + c)[|a| + |c|] == c[|c| - 1];
    }
  }

  // Lengthening the last word of a list, or adding one, leaves the front alone.
  lemma LastOfTwo(v: seq<seq<byte>>, w: seq<seq<byte>>, x: byte)
    ensures v + w + [[x]] == v + (w + [[x]])
    ensures |w| > 0 ==> (v + w)[|v + w| - 1 := (v + w)[|v + w| - 1] + [x]] == v + w[|w| - 1 := w[|w| - 1] + [x]]
  {}

  lemma {:induction false} WordsSplit(a: seq<byte>, b: byte, c: seq<byte>)
    requires IsSpace(b)
    ensures Words(a + [b] + c) == Words(a) + Words(c)
  {
    hide IsSpace, InWord;
    if |c| == 0 {
      assert a + [b] + c == a + [b];
      WordsSnoc(a, b);
    } else {
      var n := |c| - 1;
      WordsSplit(a, b, c[..n]);
      assert a + [b] + c == (a + [b] + c[..n]) + [c[n]] && c == c[..n] + [c[n]];
      hide Words;
      SplitEnds(a, b, c[..n]);
      WordsSnoc(a + [b] + c[..n], c[n]);
      WordsSnoc(c[..n], c[n]);
      LastOfTwo(Words(a), Words(c[..n]), c[n]);
    }
  }

  lemma {:induction false} JoinConcat(v: seq<seq<byte>>, w: seq<seq<byte>>)
    ensures Join(v + w) == if |v| == 0 then Join(w) else if |w| == 0 then Join(v) else Join(v) + [0x20] + Join(w)
  {
    hide Join;
    if |v| == 0 {
      assert v + w == w;
    } else if |w| == 0 {
      assert v + w == v;
    } else {
      var n := |w| - 1;
      JoinConcat(v, w[..n]);
      assert v + w == (v + w[..n]) + [w[n]] && w == w[..n] + [w[n]];
      JoinNew(v + w[..n], w[n]);
      JoinNew(w[..n], w[n]);
      Joined(Join(v), Join(w[..n]), w[n]);
    }
  }

  lemma Joined(a: seq<byte>, b: seq<byte>, c: seq<byte>)
    ensures a + [0x20] + b + [0x20] + c == a + [0x20] + (b + [0x20] + c)
  {}

  lemma LowerGap(v: seq<byte>, w: seq<byte>)
    ensures LowerAll(v + [0x20] + w) == LowerAll(v) + [0x20] + LowerAll(w)
    ensures |LowerAll(v)| == |v| && |LowerAll(w)| == |w|
  {}

  // White space anywhere separates: the normal forms of the two sides are joined
  // by one space, or stand alone if the other side has nothing.
  lemma NormalSplit(a: seq<byte>, b: byte, c: seq<byte>)
    requires b in WHITE
    ensures Normal(a + [b] + c) ==
            if Normal(a) == [] then Normal(c) else if Normal(c) == [] then Normal(a) else Normal(a) + [0x20] + Normal(c)
  {
    WhiteSpace(b);
    WordsSplit(a, b, c);
    JoinConcat(Words(a), Words(c));
    JoinLength(a);
    JoinLength(c);
    hide Words, Join, IsSpace, LowerAll;
    LowerGap(Join(Words(a)), Join(Words(c)));
  }

  // Without white space only the capitals change.
  lemma NormalWord(s: seq<byte>)
    requires forall i :: 0 <= i < |s| ==> s[i] !in WHITE
    ensures Normal(s) == LowerAll(s)
  {
    hide Words, InWord;
    NoWords();
    if |s| > 0 {
      forall i | 0 <= i < |s| ensures !IsSpace(s[i]) {
        WhiteSpace(s[i]);
      }
      WordsAppend([], s);
      assert [] + s == s;
    }
  }

  // ---- its shape ----

  // No capitals; white space only as single spaces between other bytes.
  ghost predicate Tidy(r: seq<byte>) {
    && (forall i :: 0 <= i < |r| ==> !Among(r[i], UPPER))
    && (forall i :: 0 <= i < |r| && r[i] in WHITE ==>
          r[i] == 0x20 && 0 < i < |r| - 1 && r[i - 1] !in WHITE && r[i + 1] !in WHITE)
  }

  predicate Plain(c: byte) { !Among(c, UPPER) && c !in WHITE }

  lemma TidyGrows(r: seq<byte>, c: byte)
    requires Tidy(r) && Plain(c)
    ensures Tidy(r + [c]) && (|r| > 0 ==> Tidy(r + [0x20, c]))
  {
    hide Among;
    assert !Among(0x20, UPPER) by { LowerLetters(0x20, 0); SpaceIsNoLetter(); }
  }

  lemma SpaceIsNoLetter()
    ensures !Among(0x20, UPPER)
  {
    assert forall k :: 0 <= k < 26 ==> UPPER[k] as int == 65 + k;
  }

  lemma LowerIsPlain(b: byte)
    requires !IsSpace(b)
    ensures Plain(Lower(b))
  {
    assert forall k :: 0 <= k < 26 ==> UPPER[k] as int == 65 + k;
  }

  lemma PlainStays(b: byte)
    requires Plain(b)
    ensures Lower(b) == b && !IsSpace(b)
  {
    LowerLetters(b, 0);
  }

  // Every normal form is tidy.
  lemma {:induction false} NormalIsTidy(s: seq<byte>)
    ensures Tidy(Normal(s))
  {
    hide Tidy, Plain, IsSpace, Lower;
    if |s| == 0 {
      assert Normal(s) == [];
      NothingIsTidy();
    } else {
      var n := |s| - 1;
      NormalIsTidy(s[..n]);
      assert s == s[..n] + [s[n]];
      LowerStep(s[..n], s[n]);
      hide Normal;
      if !IsSpace(s[n]) {
        LowerIsPlain(s[n]);
        TidyGrows(Normal(s[..n]), Lower(s[n]));
      }
    }
  }

  lemma NothingIsTidy()
    ensures Tidy([])
  {}

  lemma TidyFront(s: seq<byte>)
    requires Tidy(s) && |s| > 0
    ensures var n := |s| - 1;
            && Plain(s[n])
            && (n > 0 && s[n - 1] in WHITE ==> n > 1 && s[n - 1] == 0x20 && Tidy(s[..n - 1]) && Plain(s[n - 2]))
            && (n > 0 && s[n - 1] !in WHITE ==> Tidy(s[..n]) && Plain(s[n - 1]))
  {
    hide Among;
  }

  lemma TidyWord(t: seq<byte>, c: byte)
    requires Normal(t) == t && Plain(c) && (|t| == 0 || !IsSpace(t[|t| - 1]))
    ensures Normal(t + [c]) == t + [c]
  {
    hide Normal, Plain, Lower, IsSpace;
    PlainStays(c);
    LowerStep(t, c);
  }

  lemma TidyGap(t: seq<byte>, c: byte)
    requires Normal(t) == t && Plain(c) && |t| > 0
    ensures Normal(t + [0x20] + [c]) == t + [0x20, c]
  {
    hide Normal, Plain, Lower;
    PlainStays(c);
    LowerStep(t, 0x20);
    LowerStep(t + [0x20], c);
  }

  // And every tidy string is one: its own.
  lemma {:induction false} TidyIsNormal(s: seq<byte>)
    requires Tidy(s)
    ensures Normal(s) == s
  {
    hide Tidy, Plain, Among, Lower, IsSpace, LowerAll, Join, Words, InWord;
    if |s| == 0 {
      assert s == [];
      NoNormal();
    } else {
      var n := |s| - 1;
      TidyFront(s);
      assert s == s[..n] + [s[n]];
      hide Normal;
      if n == 0 {
        NoNormal();
        assert s[..0] == [];
        TidyWord([], s[0]);
      } else if s[n - 1] in WHITE {
        TidyIsNormal(s[..n - 1]);
        assert s == s[..n - 1] + [0x20] + [s[n]];
        TidyGap(s[..n - 1], s[n]);
      } else {
        PlainStays(s[n - 1]);
        TidyIsNormal(s[..n]);
        TidyWord(s[..n], s[n]);
      }
    }
  }

  lemma NoNormal()
    ensures Normal([]) == []
  {}

  // ---- order and matching ----

  lemma {:induction false} LessAt(a: seq<byte>, b: seq<byte>, i: nat)
    requires i < |a| && i < |b| && a[..i] == b[..i] && a[i] != b[i]
    ensures Less(a, b) <==> a[i] < b[i]
  {
    if i > 0 {
      assert a[0] == a[..i][0] && b[0] == b[..i][0];
      assert a[1..][..i - 1] == a[..i][1..] && b[1..][..i - 1] == b[..i][1..];
      LessAt(a[1..], b[1..], i - 1);
    }
  }

  lemma {:induction false} LessPrefix(a: seq<byte>, b: seq<byte>)
    requires a <= b
    ensures Less(a, b) <==> |a| < |b|
  {
    if |a| > 0 {
      PrefixTail(a, b);
      LessPrefix(a[1..], b[1..]);
    }
  }

  lemma FirstDifference(a: seq<byte>, b: seq<byte>) returns (i: nat)
    ensures i <= |a| && i <= |b| && a[..i] == b[..i] && (i < |a| && i < |b| ==> a[i] != b[i])
  {
    i := 0;
    while i < |a| && i < |b| && a[i] == b[i]
      invariant i <= |a| && i <= |b| && a[..i] == b[..i]
    {
      i := i + 1;
    }
  }

  // a is below b as a proper prefix, or at the first byte in which they differ.
  lemma LessMeans(a: seq<byte>, b: seq<byte>)
    ensures Less(a, b) <==>
            (|a| < |b| && a == b[..|a|])
            || exists i :: 0 <= i < |a| && i < |b| && a[..i] == b[..i] && a[i] < b[i]
  {
    hide Less;
    forall i | 0 <= i < |a| && i < |b| && a[..i] == b[..i] && a[i] < b[i] ensures Less(a, b) {
      LessAt(a, b, i);
    }
    var i := FirstDifference(a, b);
    if i < |a| && i < |b| {
      LessAt(a, b, i);
    } else if i == |a| {
      assert a[..i] == a;
      LessPrefix(a, b);
    } else {
      assert b[..i] == b;
      PrefixNotLess(b, a);
    }
  }

  lemma LaterSplit(t: seq<byte>, p: seq<byte>, a: seq<byte>, b: byte, c: seq<byte>)
    requires t == a + [b] + p + c
    ensures t[|a|] == b && MatchAt(t, p, |a| + 1)
  {
    assert t[|a| + 1..|a| + 1 + |p|] == p;
  }

  lemma MatchSplit(t: seq<byte>, p: seq<byte>, i: nat)
    requires i >= 1 && MatchAt(t, p, i)
    ensures t == t[..i - 1] + [t[i - 1]] + p + t[i + |p|..]
  {}

  // The needle begins a later word: a byte that is none of a word's stands before it.
  lemma LaterWord(t: seq<byte>, p: seq<byte>)
    ensures WordStart(t, p) <==>
            !(p <= t) && exists a, b, c :: t == a + [b] + p + c && !WordChar(b)
  {
    hide WordByte, WordChar;
    if WordStart(t, p) {
      var i: nat :| i >= 1 && MatchAt(t, p, i) && !WordByte(t[i - 1]);
      WordBytes(t[i - 1]);
      MatchSplit(t, p, i);
    } else if exists a, b, c :: t == a + [b] + p + c && !WordChar(b) {
      var a, b, c :| t == a + [b] + p + c && !WordChar(b);
      WordBytes(b);
      LaterSplit(t, p, a, b, c);
    }
  }
}
