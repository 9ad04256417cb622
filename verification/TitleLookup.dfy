/**
 Title lookup over the sorted index: exact match, prefix match and word-start
 match, reading the index through a bounds-checked callback. Each search is
 proved equal to a filter over the list of titles, in index order.
 */
module TitleLookup {
  import opened Bytes

  const ENTRY_SIZE := 40
  const NORM_OFF := 20
  const NORM_LEN := 24

  // tl_index_t. `data` is the index file behind the read callback; `size` is
  // its size if known, and 0 or anything else otherwise.
  datatype Index = Index(entriesOff: nat, count: nat, data: seq<byte>, size: nat)

  // The read callback. When the bytes are not all in the file it fails, and the
  // buffer's content is then unspecified.
  method Read(ix: Index, off: nat, buf: array<byte>, len: nat) returns (ok: bool)
    requires len <= buf.Length
    modifies buf
    ensures ok <==> off + len <= |ix.data|
    ensures ok ==> buf[..len] == ix.data[off..off + len]
  {
    ok := off + len <= |ix.data|;
    if ok {
      forall k | 0 <= k < len { buf[k] := ix.data[off + k]; }
    }
  }

  // Where entry i starts, computed in 32 bits.
  function EntryOff(ix: Index, i: nat): nat { Wrap32(ix.entriesOff + Wrap32(i * ENTRY_SIZE)) }

  // ---- the titles an index holds ----

  predicate GoodEntry(ix: Index, i: nat) {
    ix.entriesOff + (i + 1) * ENTRY_SIZE <= |ix.data| < U32 &&
    var at := ix.entriesOff + i * ENTRY_SIZE;
    Rd32(ix.data, at + NORM_OFF) + Rd16(ix.data, at + NORM_LEN) <= |ix.data|
  }

  // What the validators guarantee: entries and titles lie inside the file. A
  // title may be as long as its 16-bit length says.
  ghost predicate WellFormed(ix: Index) {
    forall i: nat :: i < ix.count ==> GoodEntry(ix, i)
  }

  // The longest title the binary search can read, and the longest the word
  // search passes over.
  const READ_MAX := 256
  const SCAN_MAX := 255

  function Title(ix: Index, i: nat): seq<byte>
    requires GoodEntry(ix, i)
  {
    var at := ix.entriesOff + i * ENTRY_SIZE;
    var off := Rd32(ix.data, at + NORM_OFF);
    ix.data[off..off + Rd16(ix.data, at + NORM_LEN)]
  }

  function Titles(ix: Index): (t: seq<seq<byte>>)
    requires WellFormed(ix)
    ensures |t| == ix.count
  {
    seq(ix.count, i requires 0 <= i < ix.count && WellFormed(ix) => Title(ix, i))
  }

  ghost predicate Sorted(t: seq<seq<byte>>) {
    forall i, j :: 0 <= i < j < |t| ==> Less(t[i], t[j])
  }

  // ---- reading one title ----

  method ReadNormTitle(ix: Index, i: nat, buf: array<byte>) returns (ok: bool, len: nat)
    requires buf.Length == READ_MAX
    modifies buf
    ensures ok ==> i < ix.count && len <= READ_MAX
    ensures i < ix.count && GoodEntry(ix, i) ==>
              (ok <==> |Title(ix, i)| <= READ_MAX) && (ok ==> buf[..len] == Title(ix, i))
  {
    len := 0;
    if i >= ix.count {
      return false, 0;
    }
    var ent := new byte[ENTRY_SIZE];
    ok := Read(ix, EntryOff(ix, i), ent, ENTRY_SIZE);
    if !ok {
      return false, 0;
    }
    assert GoodEntry(ix, i) ==> ent[..] == ix.data[ix.entriesOff + i * ENTRY_SIZE..ix.entriesOff + (i + 1) * ENTRY_SIZE];
    var off := Rd32(ent[..], NORM_OFF);
    len := Rd16(ent[..], NORM_LEN);
    if len > buf.Length {
      return false, 0;
    }
    ok := Read(ix, off, buf, len);
  }

  // ---- comparison ----

  // memcmp on the first n bytes.
  function MemCmp(a: seq<byte>, b: seq<byte>, n: nat): int
    requires n <= |a| && n <= |b|
  {
    if n == 0 then 0 else if a[0] != b[0] then a[0] as int - b[0] as int else MemCmp(a[1..], b[1..], n - 1)
  }

  function TitleCmp(a: seq<byte>, b: seq<byte>): int {
    var c := MemCmp(a, b, if |a| < |b| then |a| else |b|);
    if c != 0 then c else if |a| < |b| then -1 else if |a| > |b| then 1 else 0
  }

  lemma {:induction false} TitleCmpOrders(a: seq<byte>, b: seq<byte>)
    ensures TitleCmp(a, b) < 0 <==> Less(a, b)
    ensures TitleCmp(a, b) == 0 <==> a == b
  {
    if |a| > 0 && |b| > 0 {
      if a[0] == b[0] {
        TitleCmpOrders(a[1..], b[1..]);
        assert a == [a[0]] + a[1..] && b == [b[0]] + b[1..];
      }
    }
  }

  lemma {:induction false} MemCmpEqual(a: seq<byte>, b: seq<byte>, n: nat)
    requires n <= |a| && n <= |b|
    ensures MemCmp(a, b, n) == 0 <==> a[..n] == b[..n]
  {
    if n > 0 {
      assert a[..n] == [a[0]] + a[1..][..n - 1] && b[..n] == [b[0]] + b[1..][..n - 1];
      MemCmpEqual(a[1..], b[1..], n - 1);
    }
  }

  // ---- binary search ----

  ghost predicate IsLowerBound(t: seq<seq<byte>>, norm: seq<byte>, lo: nat) {
    lo <= |t| && (forall j :: 0 <= j < lo ==> Less(t[j], norm)) && forall j :: lo <= j < |t| ==> !Less(t[j], norm)
  }

  // Every title the binary search compares between lo and hi can be read.
  ghost predicate ProbesFit(t: seq<seq<byte>>, norm: seq<byte>, lo: nat, hi: nat)
    requires lo <= hi <= |t|
    decreases hi - lo
  {
    lo < hi ==>
      var mid := lo + (hi - lo) / 2;
      |t[mid]| <= READ_MAX && if Less(t[mid], norm) then ProbesFit(t, norm, mid + 1, hi) else ProbesFit(t, norm, lo, mid)
  }

  lemma {:induction false} ShortTitlesFit(t: seq<seq<byte>>, norm: seq<byte>, lo: nat, hi: nat)
    requires lo <= hi <= |t| && forall i :: lo <= i < hi ==> |t[i]| <= READ_MAX
    ensures ProbesFit(t, norm, lo, hi)
    decreases hi - lo
  {
    hide Less;
    if lo < hi {
      var mid := lo + (hi - lo) / 2;
      ShortTitlesFit(t, norm, mid + 1, hi);
      ShortTitlesFit(t, norm, lo, mid);
    }
  }

  lemma ProbeStep(t: seq<seq<byte>>, norm: seq<byte>, lo: nat, hi: nat)
    requires lo <= hi <= |t|
    ensures lo == hi ==> ProbesFit(t, norm, lo, hi)
    ensures lo < hi ==>
              var mid := lo + (hi - lo) / 2;
              ProbesFit(t, norm, lo, hi) == (|t[mid]| <= READ_MAX
                && if Less(t[mid], norm) then ProbesFit(t, norm, mid + 1, hi) else ProbesFit(t, norm, lo, mid))
  {
    hide Less;
  }

  // On any index whose entries are in bounds, the search fails just when it
  // meets a title that its buffer cannot hold.
  method LowerBound(ix: Index, norm: seq<byte>) returns (ok: bool, lo: nat)
    ensures WellFormed(ix) ==> (ok <==> ProbesFit(Titles(ix), norm, 0, ix.count))
    ensures WellFormed(ix) && Sorted(Titles(ix)) && ok ==> IsLowerBound(Titles(ix), norm, lo)
  {
    hide Less, ProbesFit, GoodEntry, Title, TitleCmp, Sorted;
    ghost var good := WellFormed(ix);
    ghost var t := if good then Titles(ix) else [];
    var buf := new byte[READ_MAX];
    var hi := ix.count;
    lo := 0;
    while lo < hi
      invariant lo <= hi <= ix.count
      invariant good ==> (ProbesFit(t, norm, 0, ix.count) <==> ProbesFit(t, norm, lo, hi))
      invariant good && Sorted(t) ==>
                  (forall j :: 0 <= j < lo ==> Less(t[j], norm)) && forall j :: hi <= j < ix.count ==> !Less(t[j], norm)
    {
      var mid := lo + (hi - lo) / 2;
      if good { ProbeStep(t, norm, lo, hi); }
      var read, len := ReadNormTitle(ix, mid, buf);
      if !read {
        return false, lo;
      }
      TitleCmpOrders(buf[..len], norm);
      assert good ==> buf[..len] == t[mid];
      if good && Sorted(t) {
        SortedSplits(t, norm, mid);
      }
      if TitleCmp(buf[..len], norm) < 0 {
        lo := mid + 1;
      } else {
        hi := mid;
      }
    }
    if good { ProbeStep(t, norm, lo, hi); }
    ok := true;
  }

  lemma SortedSplits(t: seq<seq<byte>>, norm: seq<byte>, mid: nat)
    requires Sorted(t) && mid < |t|
    ensures Less(t[mid], norm) ==> forall j :: 0 <= j <= mid ==> Less(t[j], norm)
    ensures !Less(t[mid], norm) ==> forall j :: mid <= j < |t| ==> !Less(t[j], norm)
  {
    hide Less;
    forall j | 0 <= j < mid && Less(t[mid], norm) ensures Less(t[j], norm) {
      LessTransitive(t[j], t[mid], norm);
    }
    forall j | mid < j < |t| && Less(t[j], norm) ensures Less(t[mid], norm) {
      LessTransitive(t[mid], t[j], norm);
    }
  }

  // ---- exact match ----

  method Exact(ix: Index, norm: seq<byte>) returns (ok: bool, id: nat)
    ensures ok ==> 1 <= |norm| <= 255 && id < ix.count
    // It finds the title unless the search meets one longer than the buffer.
    ensures WellFormed(ix) && Sorted(Titles(ix)) ==>
              && (ok <==> 1 <= |norm| <= 255 && norm in Titles(ix) && ProbesFit(Titles(ix), norm, 0, ix.count))
              && (ok ==> Titles(ix)[id] == norm)
  {
    hide Less;
    if |norm| == 0 || |norm| > 255 {
      return false, 0;
    }
    var found, lo := LowerBound(ix, norm);
    if !found {
      return false, 0;
    }
    if WellFormed(ix) && Sorted(Titles(ix)) {
      ExactAtLowerBound(Titles(ix), norm, lo);
    }
    if lo >= ix.count {
      return false, 0;
    }
    var buf := new byte[READ_MAX];
    var good, len := ReadNormTitle(ix, lo, buf);
    if !good {
      return false, 0;
    }
    if len == |norm| {
      MemCmpEqual(buf[..len], norm, len);
      if MemCmp(buf[..len], norm, |norm|) == 0 {
        assert buf[..len][..len] == buf[..len] && norm[..len] == norm;
        return true, lo;
      }
    }
    ok, id := false, 0;
  }

  // A title that is present sits at the lower bound.
  lemma ExactAtLowerBound(t: seq<seq<byte>>, norm: seq<byte>, lo: nat)
    requires Sorted(t) && IsLowerBound(t, norm, lo)
    ensures norm in t <==> lo < |t| && t[lo] == norm
  {
    hide Less;
    if norm in t {
      var j :| 0 <= j < |t| && t[j] == norm;
      LessIrreflexive(norm);
    }
  }

  // ---- prefix match ----

  // The ids below n whose titles start with p.
  function PrefixIds(t: seq<seq<byte>>, p: seq<byte>, n: nat): (ids: seq<nat>)
    requires n <= |t|
    ensures |ids| <= n
  {
    if n == 0 then [] else PrefixIds(t, p, n - 1) + if p <= t[n - 1] then [n - 1] else []
  }

  lemma {:induction false} PrefixIdsGrow(t: seq<seq<byte>>, p: seq<byte>, m: nat, n: nat)
    requires m <= n <= |t|
    ensures PrefixIds(t, p, m) <= PrefixIds(t, p, n)
    ensures (forall j :: m <= j < n ==> !(p <= t[j])) ==> PrefixIds(t, p, m) == PrefixIds(t, p, n)
  {
    if m < n {
      PrefixIdsGrow(t, p, m, n - 1);
    }
  }

  // The titles with a prefix are one block that starts at the lower bound.
  lemma BlockStart(t: seq<seq<byte>>, p: seq<byte>, lo: nat)
    requires IsLowerBound(t, p, lo)
    ensures PrefixIds(t, p, lo) == []
  {
    hide Less;
    forall j | 0 <= j < lo ensures !(p <= t[j]) {
      if p <= t[j] { PrefixNotLess(p, t[j]); }
    }
    PrefixIdsGrow(t, p, 0, lo);
  }

  lemma BlockEnd(t: seq<seq<byte>>, p: seq<byte>, lo: nat, k: nat)
    requires Sorted(t) && IsLowerBound(t, p, lo) && lo <= k < |t| && !(p <= t[k])
    ensures PrefixIds(t, p, k) == PrefixIds(t, p, |t|)
  {
    hide Less;
    forall j | k <= j < |t| ensures !(p <= t[j]) {
      if k < j { PrefixBlock(p, t[k], t[j]); }
    }
    PrefixIdsGrow(t, p, k, |t|);
  }

  lemma TakePrefix<T>(a: seq<T>, b: seq<T>, n: nat)
    requires a <= b && |a| <= n && (|a| == n || a == b)
    ensures Take(b, n) == a
  {}

  // Title j is read by the loop: fewer than maxIds titles before it have the
  // prefix, and none since the lower bound lacks it.
  ghost predicate BlockReads(t: seq<seq<byte>>, p: seq<byte>, maxIds: nat, j: nat) {
    j < |t| && !Less(t[j], p) && |PrefixIds(t, p, j)| < maxIds
    && forall i :: 0 <= i < j && !Less(t[i], p) ==> p <= t[i]
  }

  // Every title that the prefix search reads fits its buffer.
  ghost predicate PrefixFits(t: seq<seq<byte>>, p: seq<byte>, maxIds: nat) {
    ProbesFit(t, p, 0, |t|) && forall j: nat :: BlockReads(t, p, maxIds, j) ==> |t[j]| <= READ_MAX
  }

  method Prefix(ix: Index, norm: seq<byte>, outIds: array<nat>, maxIds: int) returns (ok: bool, count: nat)
    requires maxIds <= outIds.Length
    modifies outIds
    ensures count <= outIds.Length
    ensures |norm| == 0 || |norm| > 255 || maxIds <= 0 ==> ok && count == 0
    ensures WellFormed(ix) && Sorted(Titles(ix)) && 1 <= |norm| <= 255 && maxIds > 0 ==>
              && (ok <==> PrefixFits(Titles(ix), norm, maxIds))
              && (ok ==> outIds[..count] == Take(PrefixIds(Titles(ix), norm, ix.count), maxIds))
  {
    hide Less, PrefixIds, ProbesFit, PrefixFits, BlockReads, GoodEntry, Title, Sorted;
    count := 0;
    if |norm| == 0 || |norm| > 255 || maxIds <= 0 {
      return true, 0;
    }
    ghost var good := WellFormed(ix) && Sorted(Titles(ix));
    ghost var t := if good then Titles(ix) else [];
    var found, lo := LowerBound(ix, norm);
    if !found {
      if good { NoProbes(t, norm, maxIds); }
      return false, 0;
    }
    ghost var start := lo;
    if good {
      BlockStart(t, norm, lo);
    }
    var buf := new byte[READ_MAX];
    while lo < ix.count && count < maxIds
      invariant start <= lo && (lo <= ix.count || lo == start) && count <= maxIds
      invariant good ==> lo <= ix.count && outIds[..count] == PrefixIds(t, norm, lo)
      invariant good ==> forall j :: start <= j < lo ==> norm <= t[j] && |t[j]| <= READ_MAX
      decreases ix.count - lo
    {
      if good { ReadsHere(t, norm, maxIds, start, lo); }
      var read, len := ReadNormTitle(ix, lo, buf);
      if !read {
        if good { ReadFails(t, norm, maxIds, lo); }
        return false, count;
      }
      assert good ==> buf[..len] == t[lo];
      var hit := len >= |norm| && MemCmp(buf[..len], norm, |norm|) == 0;
      if len >= |norm| {
        MemCmpEqual(buf[..len], norm, |norm|);
        assert norm[..|norm|] == norm;
      }
      if !hit {
        if good {
          BlockEnd(t, norm, start, lo);
          TakePrefix(outIds[..count], PrefixIds(t, norm, ix.count), maxIds);
          AllReadsFit(t, norm, maxIds, start, lo);
        }
        return true, count;
      }
      if good {
        PrefixIdsStep(t, norm, lo);
      }
      outIds[count] := lo;
      count := count + 1;
      lo := lo + 1;
    }
    ok := true;
    if good {
      PrefixIdsGrow(t, norm, lo, ix.count);
      TakePrefix(outIds[..count], PrefixIds(t, norm, ix.count), maxIds);
      AllReadsFit(t, norm, maxIds, start, lo);
    }
  }

  lemma NoProbes(t: seq<seq<byte>>, p: seq<byte>, maxIds: nat)
    requires !ProbesFit(t, p, 0, |t|)
    ensures !PrefixFits(t, p, maxIds)
  {}

  // The loop does read the title it stands at.
  lemma ReadsHere(t: seq<seq<byte>>, p: seq<byte>, maxIds: nat, start: nat, at: nat)
    requires IsLowerBound(t, p, start) && start <= at < |t| && |PrefixIds(t, p, at)| < maxIds
    requires forall j :: start <= j < at ==> p <= t[j]
    ensures BlockReads(t, p, maxIds, at)
  {
    hide Less, PrefixIds;
  }

  lemma ReadFails(t: seq<seq<byte>>, p: seq<byte>, maxIds: nat, at: nat)
    requires BlockReads(t, p, maxIds, at) && |t[at]| > READ_MAX
    ensures !PrefixFits(t, p, maxIds)
  {
    hide BlockReads, ProbesFit;
  }

  // Where it stops, it has read all that the block lets it read.
  lemma AllReadsFit(t: seq<seq<byte>>, p: seq<byte>, maxIds: nat, start: nat, at: nat)
    requires ProbesFit(t, p, 0, |t|) && IsLowerBound(t, p, start) && start <= at <= |t|
    requires forall j :: start <= j < at ==> |t[j]| <= READ_MAX
    requires at == |t| || |PrefixIds(t, p, at)| >= maxIds || (!(p <= t[at]) && |t[at]| <= READ_MAX)
    ensures PrefixFits(t, p, maxIds)
  {
    hide Less, PrefixIds, ProbesFit;
    forall j: nat | BlockReads(t, p, maxIds, j) ensures |t[j]| <= READ_MAX {
      assert j >= start;
      if j > at {
        PrefixIdsGrow(t, p, at, j);
      }
    }
  }

  lemma PrefixIdsStep(t: seq<seq<byte>>, p: seq<byte>, n: nat)
    requires n < |t|
    ensures PrefixIds(t, p, n + 1) == PrefixIds(t, p, n) + if p <= t[n] then [n] else []
  {}

  // ---- word-start match ----

  // Bytes that never end a word: letters, digits, the apostrophe, UTF-8 bytes.
  predicate WordByte(b: byte) {
    b >= 0x80 || 0x61 <= b <= 0x7A || 0x30 <= b <= 0x39 || 0x41 <= b <= 0x5A || b == 0x27
  }

  predicate MatchAt(t: seq<byte>, p: seq<byte>, i: nat) {
    i + |p| <= |t| && t[i..i + |p|] == p
  }

  // p begins a word of t other than the first.
  ghost predicate WordStart(t: seq<byte>, p: seq<byte>) {
    !(p <= t) && exists i: nat :: i >= 1 && MatchAt(t, p, i) && !WordByte(t[i - 1])
  }

  method WordStartMatch(t: seq<byte>, norm: seq<byte>) returns (hit: bool)
    ensures hit == WordStart(t, norm)
  {
    if |t| < |norm| {
      return false;
    }
    MemCmpEqual(t, norm, |norm|);
    assert norm[..|norm|] == norm;
    if MemCmp(t, norm, |norm|) == 0 {
      return false;
    }
    assert !(norm <= t);
    var i := 1;
    while i + |norm| <= |t|
      invariant i >= 1
      invariant forall k: nat :: 1 <= k < i ==> !(MatchAt(t, norm, k) && !WordByte(t[k - 1]))
      decreases |t| - i
    {
      if !WordByte(t[i - 1]) {
        MemCmpEqual(t[i..], norm, |norm|);
        assert t[i..][..|norm|] == t[i..i + |norm|];
        if MemCmp(t[i..], norm, |norm|) == 0 {
          assert MatchAt(t, norm, i);
          return true;
        }
      }
      i := i + 1;
    }
    hit := false;
  }

  // The ids below n where p starts a later word: the naive filter.
  ghost function WordStartIds(t: seq<seq<byte>>, p: seq<byte>, n: nat): (ids: seq<nat>)
    requires n <= |t|
    ensures |ids| <= n
  {
    if n == 0 then [] else WordStartIds(t, p, n - 1) + if WordStart(t[n - 1], p) then [n - 1] else []
  }

  lemma {:induction false} WordStartIdsGrow(t: seq<seq<byte>>, p: seq<byte>, m: nat, n: nat)
    requires m <= n <= |t|
    ensures WordStartIds(t, p, m) <= WordStartIds(t, p, n)
  {
    if m < n {
      WordStartIdsGrow(t, p, m, n - 1);
    }
  }

  const SCAN_ENTRIES := 16
  const SCAN_WINDOW := 768

  // The window over the string table. Its first `len` bytes are always the
  // index's bytes from `off` on.
  class Window {
    const buf: array<byte>
    var off: nat
    var len: nat

    ghost predicate Valid(ix: Index)
      reads this, buf
    {
      buf.Length == SCAN_WINDOW && len <= SCAN_WINDOW && off + len <= |ix.data|
      && buf[..len] == ix.data[off..off + len]
    }

    constructor (ix: Index)
      ensures Valid(ix) && fresh(buf)
    {
      buf := new byte[SCAN_WINDOW];
      off, len := 0, 0;
    }

    // Make the window cover index bytes off' to off' + len', moving it if need be.
    method Cover(ix: Index, noff: nat, nlen: nat) returns (ok: bool)
      requires Valid(ix) && nlen <= SCAN_MAX
      modifies this, buf
      ensures ok <==> noff + nlen <= |ix.data|
      ensures ok ==> Valid(ix) && off <= noff && noff + nlen <= off + len
    {
      if noff < off || nlen > len || noff - off > len - nlen {
        off := noff;
        len := SCAN_WINDOW;
        if ix.size > noff && ix.size - noff < len {
          len := ix.size - noff;
        }
        if len < nlen {
          len := nlen;
        }
        ok := Read(ix, off, buf, len);
        if !ok {
          len := nlen;
          ok := Read(ix, off, buf, len);
          if !ok {
            return false;
          }
        }
      }
      ok := true;
    }
  }

  // No title of more than 255 bytes stands before the maxIds-th hit.
  ghost predicate ScanFits(t: seq<seq<byte>>, p: seq<byte>, maxIds: nat) {
    forall j: nat :: j < |t| && |t[j]| > SCAN_MAX ==> |WordStartIds(t, p, j)| >= maxIds
  }

  // `batch` is the n entries from entry `base` on.
  ghost predicate IsBatch(ix: Index, batch: seq<byte>, base: nat, n: nat) {
    n * ENTRY_SIZE <= |batch| && ix.entriesOff + (base + n) * ENTRY_SIZE <= |ix.data|
    && batch[..n * ENTRY_SIZE] == ix.data[ix.entriesOff + base * ENTRY_SIZE..ix.entriesOff + (base + n) * ENTRY_SIZE]
  }

  lemma BatchByte(ix: Index, batch: seq<byte>, base: nat, n: nat, i: nat)
    requires IsBatch(ix, batch, base, n) && i < n * ENTRY_SIZE
    ensures batch[i] == ix.data[ix.entriesOff + base * ENTRY_SIZE + i]
  {
    assert batch[i] == batch[..n * ENTRY_SIZE][i];
  }

  lemma BatchEntry(ix: Index, batch: seq<byte>, base: nat, n: nat, k: nat)
    requires k < n && IsBatch(ix, batch, base, n) && GoodEntry(ix, base + k)
    ensures (k + 1) * ENTRY_SIZE <= |batch|
    ensures var off, len := Rd32(batch, k * ENTRY_SIZE + NORM_OFF), Rd16(batch, k * ENTRY_SIZE + NORM_LEN);
            off + len <= |ix.data| && Title(ix, base + k) == ix.data[off..off + len]
  {
    hide Rd32, Rd16, IsBatch;
    BatchField(ix, batch, base, n, k);
  }

  lemma BatchField(ix: Index, batch: seq<byte>, base: nat, n: nat, k: nat)
    requires k < n && IsBatch(ix, batch, base, n)
    ensures (k + 1) * ENTRY_SIZE <= |batch| && ix.entriesOff + (base + k + 1) * ENTRY_SIZE <= |ix.data|
    ensures var i, at := k * ENTRY_SIZE, ix.entriesOff + (base + k) * ENTRY_SIZE;
            Rd32(batch, i + NORM_OFF) == Rd32(ix.data, at + NORM_OFF) && Rd16(batch, i + NORM_LEN) == Rd16(ix.data, at + NORM_LEN)
  {
    var i := k * ENTRY_SIZE;
    BatchByte(ix, batch, base, n, i + 20);
    BatchByte(ix, batch, base, n, i + 21);
    BatchByte(ix, batch, base, n, i + 22);
    BatchByte(ix, batch, base, n, i + 23);
    BatchByte(ix, batch, base, n, i + 24);
    BatchByte(ix, batch, base, n, i + 25);
    BatchSize(ix, batch, base, n);
    hide IsBatch;
  }

  lemma BatchSize(ix: Index, batch: seq<byte>, base: nat, n: nat)
    requires IsBatch(ix, batch, base, n)
    ensures n * ENTRY_SIZE <= |batch| && ix.entriesOff + (base + n) * ENTRY_SIZE <= |ix.data|
  {}

  datatype Progress = More | Full | Failed

  // The body of the inner loop, for entry k of the batch.
  method ScanEntry(ix: Index, norm: seq<byte>, ents: array<byte>, base: nat, n: nat, k: nat, win: Window,
                   outIds: array<nat>, maxIds: nat, found: nat) returns (p: Progress, count: nat)
    requires ents.Length == SCAN_ENTRIES * ENTRY_SIZE && k < n <= SCAN_ENTRIES && base + n <= ix.count
    requires 1 <= |norm| <= 255 && found < maxIds <= outIds.Length && win.Valid(ix)
    requires ents != win.buf
    requires WellFormed(ix) ==> IsBatch(ix, ents[..], base, n) && outIds[..found] == WordStartIds(Titles(ix), norm, base + k)
    modifies win, win.buf, outIds
    ensures count <= maxIds && (p.More? ==> count < maxIds && win.Valid(ix))
    ensures WellFormed(ix) ==>
              && (p.Failed? <==> |Titles(ix)[base + k]| > SCAN_MAX)
              && outIds[..count] == WordStartIds(Titles(ix), norm, if p.Failed? then base + k else base + k + 1)
    ensures p.Full? ==> count == maxIds
  {
    hide WordStart, WordStartIds, Title, IsBatch, GoodEntry, Rd32, Rd16;
    p, count := More, found;
    ghost var id := base + k;
    var noff, nlen := Rd32(ents[..], k * ENTRY_SIZE + NORM_OFF), Rd16(ents[..], k * ENTRY_SIZE + NORM_LEN);
    if WellFormed(ix) {
      BatchEntry(ix, ents[..], base, n, k);
      WordStartIdsStep(Titles(ix), norm, id);
      assert Titles(ix)[id] == ix.data[noff..noff + nlen];
    }
    if nlen > SCAN_MAX {
      return Failed, count;
    }
    if nlen < |norm| {
      if WellFormed(ix) { ShortTitle(Titles(ix)[id], norm); }
      return;
    }
    var covered := win.Cover(ix, noff, nlen);
    if !covered {
      return Failed, count;
    }
    WindowSlice(win.buf[..], ix.data, win.off, win.len, noff, nlen);
    var hit := WordStartMatch(win.buf[noff - win.off..noff - win.off + nlen], norm);
    if hit {
      outIds[count] := base + k;
      count := count + 1;
      if count >= maxIds {
        p := Full;
      }
    }
  }

  // The titles below n are short.
  ghost predicate ShortTo(t: seq<seq<byte>>, n: nat)
    requires n <= |t|
  {
    forall j :: 0 <= j < n ==> |t[j]| <= SCAN_MAX
  }

  // The inner loop, over one batch.
  method ScanBatch(ix: Index, norm: seq<byte>, ents: array<byte>, base: nat, n: nat, win: Window,
                   outIds: array<nat>, maxIds: nat, found: nat) returns (p: Progress, count: nat)
    requires ents.Length == SCAN_ENTRIES * ENTRY_SIZE && n <= SCAN_ENTRIES && base + n <= ix.count
    requires 1 <= |norm| <= 255 && found < maxIds <= outIds.Length && win.Valid(ix)
    requires ents != win.buf
    requires WellFormed(ix) ==>
               && IsBatch(ix, ents[..], base, n) && outIds[..found] == WordStartIds(Titles(ix), norm, base)
               && ShortTo(Titles(ix), base)
    modifies win, win.buf, outIds
    ensures count <= maxIds && (p.More? ==> count < maxIds && win.Valid(ix))
    ensures WellFormed(ix) && p.More? ==>
              outIds[..count] == WordStartIds(Titles(ix), norm, base + n) && ShortTo(Titles(ix), base + n)
    ensures WellFormed(ix) && p.Full? ==>
              && outIds[..count] == Take(WordStartIds(Titles(ix), norm, ix.count), maxIds)
              && ScanFits(Titles(ix), norm, maxIds)
    ensures WellFormed(ix) && p.Failed? ==>
              outIds[..count] <= WordStartIds(Titles(ix), norm, ix.count) && !ScanFits(Titles(ix), norm, maxIds)
  {
    hide WordStart, WordStartIds, Title, GoodEntry, IsBatch, ScanFits;
    p, count := More, found;
    for k := 0 to n
      invariant p.More? && count < maxIds && win.Valid(ix)
      invariant WellFormed(ix) ==> IsBatch(ix, ents[..], base, n) && outIds[..count] == WordStartIds(Titles(ix), norm, base + k)
      invariant WellFormed(ix) ==> ShortTo(Titles(ix), base + k)
    {
      p, count := ScanEntry(ix, norm, ents, base, n, k, win, outIds, maxIds, count);
      if p.Full? && WellFormed(ix) {
        WordStartIdsGrow(Titles(ix), norm, base + k + 1, ix.count);
        TakePrefix(outIds[..count], WordStartIds(Titles(ix), norm, ix.count), maxIds);
        FullFits(Titles(ix), norm, maxIds, base + k + 1);
      }
      if p.Failed? && WellFormed(ix) {
        WordStartIdsGrow(Titles(ix), norm, base + k, ix.count);
        LongTitleMet(Titles(ix), norm, maxIds, base + k);
      }
      if !p.More? {
        return;
      }
    }
  }

  // Titles after the last hit wanted are never looked at.
  lemma FullFits(t: seq<seq<byte>>, p: seq<byte>, maxIds: nat, n: nat)
    requires n <= |t| && ShortTo(t, n) && |WordStartIds(t, p, n)| >= maxIds
    ensures ScanFits(t, p, maxIds)
  {
    hide WordStartIds;
    forall j: nat | n <= j < |t| ensures |WordStartIds(t, p, j)| >= maxIds {
      WordStartIdsGrow(t, p, n, j);
    }
  }

  lemma LongTitleMet(t: seq<seq<byte>>, p: seq<byte>, maxIds: nat, j: nat)
    requires j < |t| && |t[j]| > SCAN_MAX && |WordStartIds(t, p, j)| < maxIds
    ensures !ScanFits(t, p, maxIds)
  {
    hide WordStartIds;
  }

  // The sliding window and the batches are invisible: on any index whose entries
  // are in bounds, the result is the naive filter over all titles, cut at maxIds,
  // and the search fails just when a title of more than 255 bytes stands before
  // the last hit wanted. No order of the titles is needed.
  method WordStartSearch(ix: Index, norm: seq<byte>, outIds: array<nat>, maxIds: int) returns (ok: bool, count: nat)
    requires maxIds <= outIds.Length
    modifies outIds
    ensures count <= outIds.Length
    ensures |norm| == 0 || |norm| > 255 || maxIds <= 0 ==> ok && count == 0
    ensures WellFormed(ix) && 1 <= |norm| <= 255 && maxIds > 0 ==>
              && (ok <==> ScanFits(Titles(ix), norm, maxIds))
              && (ok ==> outIds[..count] == Take(WordStartIds(Titles(ix), norm, ix.count), maxIds))
              && (!ok ==> outIds[..count] <= WordStartIds(Titles(ix), norm, ix.count))
  {
    hide WordStart, WordStartIds, Title, GoodEntry, ScanFits;
    count := 0;
    if |norm| == 0 || |norm| > 255 || maxIds <= 0 {
      return true, 0;
    }
    var ents := new byte[SCAN_ENTRIES * ENTRY_SIZE];
    var win := new Window(ix);
    var base := 0;
    if WellFormed(ix) { WordStartIdsNone(Titles(ix), norm); }
    while base < ix.count
      invariant count < maxIds && win.Valid(ix) && fresh(win) && fresh(win.buf)
      invariant WellFormed(ix) ==> outIds[..count] == WordStartIds(Titles(ix), norm, Min(base, ix.count))
      invariant WellFormed(ix) ==> ShortTo(Titles(ix), Min(base, ix.count))
      decreases ix.count - base
    {
      var n := Min(ix.count - base, SCAN_ENTRIES);
      if WellFormed(ix) { BatchReadable(ix, base, n); }
      var read := Read(ix, EntryOff(ix, base), ents, n * ENTRY_SIZE);
      if !read {
        return false, count;
      }
      var p: Progress;
      p, count := ScanBatch(ix, norm, ents, base, n, win, outIds, maxIds, count);
      if !p.More? {
        return p.Full?, count;
      }
      base := base + SCAN_ENTRIES;
    }
    ok := true;
    if WellFormed(ix) { ShortFits(Titles(ix), norm, maxIds); }
  }

  lemma ShortFits(t: seq<seq<byte>>, p: seq<byte>, maxIds: nat)
    requires ShortTo(t, |t|)
    ensures ScanFits(t, p, maxIds)
  {}

  function Min(a: nat, b: nat): nat { if a < b then a else b }

  lemma WindowSlice(buf: seq<byte>, data: seq<byte>, off: nat, len: nat, noff: nat, nlen: nat)
    requires off + len <= |data| && len <= |buf| && buf[..len] == data[off..off + len]
    requires off <= noff && noff + nlen <= off + len
    ensures buf[noff - off..noff - off + nlen] == data[noff..noff + nlen]
  {
    var a := noff - off;
    var l, r := buf[a..a + nlen], data[noff..noff + nlen];
    forall k | 0 <= k < nlen ensures l[k] == r[k] {
      assert buf[..len][a + k] == data[off..off + len][a + k];
    }
  }

  lemma BatchReadable(ix: Index, base: nat, n: nat)
    requires WellFormed(ix) && 0 < n && base + n <= ix.count
    ensures EntryOff(ix, base) == ix.entriesOff + base * ENTRY_SIZE
    ensures ix.entriesOff + (base + n) * ENTRY_SIZE <= |ix.data|
  {
    assert GoodEntry(ix, base) && GoodEntry(ix, base + n - 1);
  }

  lemma WordStartIdsNone(t: seq<seq<byte>>, p: seq<byte>)
    ensures WordStartIds(t, p, 0) == []
  {}

  lemma WordStartIdsStep(t: seq<seq<byte>>, p: seq<byte>, n: nat)
    requires n < |t|
    ensures WordStartIds(t, p, n + 1) == WordStartIds(t, p, n) + if WordStart(t[n], p) then [n] else []
  {}

  lemma ShortTitle(t: seq<byte>, p: seq<byte>)
    requires |t| < |p|
    ensures !WordStart(t, p)
  {
    forall i: nat ensures !MatchAt(t, p, i) {}
  }
}
