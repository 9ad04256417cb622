/**
 The host side's search over a parsed archive. It repeats the firmware's
 lookups on lists: exact match, prefix matches, word-start matches, in this
 order and without duplicates.
 */
module ArchiveSearch {
  import opened Bytes
  import opened Options
  import opened TitleNormalize
  import opened TitleLookup

  // bytes.find: the first match at or after `from`, or -1.
  method Find(s: seq<byte>, p: seq<byte>, from: nat) returns (i: int)
    ensures i == -1 || (i >= from && MatchAt(s, p, i))
    ensures forall k: nat :: from <= k && (i == -1 || k < i) ==> !MatchAt(s, p, k)
  {
    i := from;
    while i + |p| <= |s|
      invariant i >= from && forall k: nat :: from <= k < i ==> !MatchAt(s, p, k)
      decreases |s| - i
    {
      if s[i..i + |p|] == p {
        return;
      }
      i := i + 1;
    }
    i := -1;
  }

  // word_start_match: the same relation as the firmware's.
  method WordStartMatchHost(norm: seq<byte>, needle: seq<byte>) returns (hit: bool)
    ensures hit == (needle != [] && WordStart(norm, needle))
  {
    if needle == [] || needle <= norm {
      return false;
    }
    var i := Find(norm, needle, 1);
    while i > 0
      invariant i == -1 || (i >= 1 && MatchAt(norm, needle, i))
      invariant forall k: nat :: 1 <= k && (i == -1 || k < i) ==> !(MatchAt(norm, needle, k) && !WordByte(norm[k - 1]))
      decreases if i == -1 then 0 else |norm| - i + 1
    {
      if !WordByte(norm[i - 1]) {
        return true;
      }
      i := Find(norm, needle, i + 1);
    }
    hit := false;
  }

  method Bisect(t: seq<seq<byte>>, needle: seq<byte>) returns (lo: nat)
    requires Sorted(t)
    ensures IsLowerBound(t, needle, lo)
  {
    hide Less;
    lo := 0;
    var hi := |t|;
    while lo < hi
      invariant lo <= hi <= |t|
      invariant (forall j :: 0 <= j < lo ==> Less(t[j], needle)) && forall j :: hi <= j < |t| ==> !Less(t[j], needle)
    {
      var mid := (lo + hi) / 2;
      SortedSplits(t, needle, mid);
      if Less(t[mid], needle) {
        lo := mid + 1;
      } else {
        hi := mid;
      }
    }
  }

  // find_exact
  method FindExact(t: seq<seq<byte>>, title: seq<byte>) returns (r: Option<nat>)
    requires Sorted(t)
    ensures r.Some? <==> Normal(title) in t
    ensures r.Some? ==> r.value < |t| && t[r.value] == Normal(title)
  {
    hide Normal, Less;
    var needle := NormalizeTitle(title);
    var lo := Bisect(t, needle);
    ExactAtLowerBound(t, needle, lo);
    r := if lo < |t| && t[lo] == needle then Some(lo) else None;
  }

  // find_prefix
  method FindPrefix(t: seq<seq<byte>>, title: seq<byte>, limit: nat) returns (out: seq<nat>)
    requires Sorted(t)
    ensures out == Take(PrefixIds(t, Normal(title), |t|), limit)
  {
    hide Normal, Less, PrefixIds;
    var needle := NormalizeTitle(title);
    var lo := Bisect(t, needle);
    ghost var start := lo;
    out := [];
    BlockStart(t, needle, lo);
    while lo < |t| && |out| < limit
      invariant start <= lo <= |t| && |out| <= limit && out == PrefixIds(t, needle, lo)
    {
      if !(needle <= t[lo]) {
        BlockEnd(t, needle, start, lo);
        TakePrefix(out, PrefixIds(t, needle, |t|), limit);
        return;
      }
      PrefixIdsStep(t, needle, lo);
      out := out + [lo];
      lo := lo + 1;
    }
    PrefixIdsGrow(t, needle, lo, |t|);
    TakePrefix(out, PrefixIds(t, needle, |t|), limit);
  }

  // find_word_start
  method FindWordStart(t: seq<seq<byte>>, title: seq<byte>, limit: nat) returns (out: seq<nat>)
    requires limit >= 1
    ensures out == if Normal(title) == [] then [] else Take(WordStartIds(t, Normal(title), |t|), limit)
  {
    hide Normal, WordStart, WordStartIds;
    var needle := NormalizeTitle(title);
    out := [];
    if needle == [] {
      return;
    }
    WordStartIdsNone(t, needle);
    for i := 0 to |t|
      invariant |out| < limit && out == WordStartIds(t, needle, i)
    {
      WordStartIdsStep(t, needle, i);
      var hit := WordStartMatchHost(t[i], needle);
      if hit {
        out := out + [i];
        if |out| >= limit {
          WordStartIdsGrow(t, needle, i + 1, |t|);
          TakePrefix(out, WordStartIds(t, needle, |t|), limit);
          return;
        }
      }
    }
    TakePrefix(out, WordStartIds(t, needle, |t|), limit);
  }

  // All prefix matches in index order, then all word-start matches.
  ghost function AllMatches(t: seq<seq<byte>>, p: seq<byte>): seq<nat> {
    PrefixIds(t, p, |t|) + WordStartIds(t, p, |t|)
  }

  lemma {:induction false} PrefixIdsExact(t: seq<seq<byte>>, p: seq<byte>, n: nat)
    requires n <= |t|
    ensures forall i: nat :: i in PrefixIds(t, p, n) <==> i < n && p <= t[i]
    ensures forall i, k :: 0 <= i < k < |PrefixIds(t, p, n)| ==> PrefixIds(t, p, n)[i] < PrefixIds(t, p, n)[k]
  {
    if n > 0 {
      PrefixIdsExact(t, p, n - 1);
      var ids := PrefixIds(t, p, n - 1);
      assert forall i :: 0 <= i < |ids| ==> ids[i] in ids;
      forall i: nat ensures i in PrefixIds(t, p, n) <==> i in ids || (i == n - 1 && p <= t[n - 1]) {}
    }
  }

  lemma {:induction false} WordStartIdsExact(t: seq<seq<byte>>, p: seq<byte>, n: nat)
    requires n <= |t|
    ensures forall i: nat :: i in WordStartIds(t, p, n) <==> i < n && WordStart(t[i], p)
    ensures forall i, k :: 0 <= i < k < |WordStartIds(t, p, n)| ==> WordStartIds(t, p, n)[i] < WordStartIds(t, p, n)[k]
  {
    hide WordStart;
    if n > 0 {
      WordStartIdsExact(t, p, n - 1);
      var ids := WordStartIds(t, p, n - 1);
      assert forall i :: 0 <= i < |ids| ==> ids[i] in ids;
      forall i: nat ensures i in WordStartIds(t, p, n) <==> i in ids || (i == n - 1 && WordStart(t[n - 1], p)) {}
    }
  }

  // No title is listed twice.
  lemma MatchesDistinct(t: seq<seq<byte>>, p: seq<byte>)
    ensures forall i, k :: 0 <= i < k < |AllMatches(t, p)| ==> AllMatches(t, p)[i] != AllMatches(t, p)[k]
  {
    PrefixIdsExact(t, p, |t|);
    WordStartIdsExact(t, p, |t|);
    hide PrefixIds, WordStartIds;
    var a, b := PrefixIds(t, p, |t|), WordStartIds(t, p, |t|);
    forall i, k | 0 <= i < |a| && 0 <= k < |b| ensures a[i] != b[k] {
      assert a[i] in a && b[k] in b;
    }
  }

  // The exact match, when there is one, is the first prefix match.
  lemma ExactIsFirst(t: seq<seq<byte>>, p: seq<byte>, id: nat)
    requires Sorted(t) && id < |t| && t[id] == p
    ensures |PrefixIds(t, p, |t|)| > 0 && PrefixIds(t, p, |t|)[0] == id
  {
    hide Less;
    PrefixIdsExact(t, p, |t|);
    var ids := PrefixIds(t, p, |t|);
    assert id in ids;
    var k :| 0 <= k < |ids| && ids[k] == id;
    if k > 0 {
      assert ids[0] in ids && ids[0] < id;
      PrefixNotLess(p, t[ids[0]]);
    }
  }

  // search
  method Search(t: seq<seq<byte>>, title: seq<byte>, limit: nat) returns (out: seq<nat>)
    requires Sorted(t) && limit >= 1
    ensures out == if Normal(title) == [] then [] else Take(AllMatches(t, Normal(title)), limit)
  {
    hide Normal, Less, PrefixIds, WordStartIds;
    var needle := NormalizeTitle(title);
    if needle == [] {
      return [];
    }
    NormalIdempotent(title);
    var exact := FindExact(t, needle);
    var hits := FindPrefix(t, needle, limit + 1);
    PrefixIdsExact(t, needle, |t|);
    if exact.Some? {
      ExactIsFirst(t, needle, exact.value);
    }
    out := MergeHits(exact, hits, limit);
    if |out| < limit {
      var rest := FindWordStart(t, needle, limit - |out|);
      out := out + rest;
    }
    out := Take(out, limit);
  }

  // The prefix hits behind the exact match, which is not listed again.
  method MergeHits(exact: Option<nat>, hits: seq<nat>, limit: nat) returns (out: seq<nat>)
    requires limit >= 1
    requires exact.Some? ==> |hits| > 0 && hits[0] == exact.value
    requires forall i, k :: 0 <= i < k < |hits| ==> hits[i] < hits[k]
    ensures out == Take(hits, limit)
  {
    out := if exact.Some? then [exact.value] else [];
    var i := 0;
    while i < |hits|
      invariant i <= |hits| && |out| <= limit
      invariant out == hits[..if exact.Some? && i == 0 then 1 else i]
      invariant i > 0 ==> |out| < limit
    {
      if exact.None? || hits[i] != exact.value {
        out := out + [hits[i]];
      }
      i := i + 1;
      if |out| >= limit {
        break;
      }
    }
  }
}
