/** Bytes, little-endian integers and the order of byte strings. */
module Bytes {
  type byte = x: int | 0 <= x < 256

  const U32: int := 0x1_0000_0000

  // Reduction to 32 bits, where the source computes with uint32_t.
  function Wrap32(n: int): (r: nat)
    ensures r < U32 && (0 <= n < U32 ==> r == n)
  {
    n % U32
  }

  function Rd16(s: seq<byte>, at: nat): (n: nat)
    requires at + 2 <= |s|
    ensures n < 0x1_0000
  {
    s[at] as int + 0x100 * (s[at + 1] as int)
  }

  function Rd32(s: seq<byte>, at: nat): (n: nat)
    requires at + 4 <= |s|
    ensures n < U32
  {
    s[at] as int + 0x100 * (s[at + 1] as int) + 0x1_0000 * (s[at + 2] as int) + 0x100_0000 * (s[at + 3] as int)
  }

  // Lexicographic order, a proper prefix first.
  predicate Less(a: seq<byte>, b: seq<byte>) {
    if |b| == 0 then false
    else if |a| == 0 then true
    else a[0] < b[0] || (a[0] == b[0] && Less(a[1..], b[1..]))
  }

  lemma {:induction false} LessTransitive(a: seq<byte>, b: seq<byte>, c: seq<byte>)
    requires Less(a, b) && Less(b, c)
    ensures Less(a, c)
  {
    if |a| > 0 && |b| > 0 && |c| > 0 && a[0] == b[0] == c[0] {
      LessTransitive(a[1..], b[1..], c[1..]);
    }
  }

  lemma {:induction false} LessIrreflexive(a: seq<byte>)
    ensures !Less(a, a)
  {
    if |a| > 0 {
      LessIrreflexive(a[1..]);
    }
  }

  lemma {:induction false} LessTotal(a: seq<byte>, b: seq<byte>)
    ensures Less(a, b) || Less(b, a) || a == b
  {
    if |a| > 0 && |b| > 0 && a[0] == b[0] {
      LessTotal(a[1..], b[1..]);
      assert a == [a[0]] + a[1..] && b == [b[0]] + b[1..];
    }
  }

  lemma PrefixTail(p: seq<byte>, a: seq<byte>)
    requires |p| > 0 && |a| > 0
    ensures p <= a <==> p[0] == a[0] && p[1..] <= a[1..]
  {
    assert p == [p[0]] + p[1..] && a == [a[0]] + a[1..];
    if p <= a {
      assert a[1..][..|p| - 1] == a[..|p|][1..];
    }
  }

  // A string at least p either has the prefix p or is above all that have it.
  lemma {:induction false} PrefixBlock(p: seq<byte>, a: seq<byte>, b: seq<byte>)
    requires !Less(a, p) && !(p <= a) && Less(a, b)
    ensures !(p <= b)
  {
    if |p| > 0 && |a| > 0 && |b| > 0 {
      PrefixTail(p, a);
      PrefixTail(p, b);
      if p[0] == a[0] == b[0] {
        PrefixBlock(p[1..], a[1..], b[1..]);
      }
    }
  }

  lemma {:induction false} PrefixNotLess(p: seq<byte>, a: seq<byte>)
    requires p <= a
    ensures !Less(a, p)
  {
    if |p| > 0 {
      PrefixTail(p, a);
      PrefixNotLess(p[1..], a[1..]);
    }
  }

  // The first n elements, or all of them.
  function Take<T>(s: seq<T>, n: nat): (r: seq<T>)
    ensures |r| <= n && r <= s
  {
    if |s| <= n then s else s[..n]
  }
}
