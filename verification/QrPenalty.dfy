/**
 The penalty score of a symbol (ISO/IEC 18004:2000, 8.8.2). The source scans
 each line once, with a run counter and a history of seven run lengths. The
 specification is about the line's maximal runs of equal modules.
 */
module QrPenalty {
  import opened QrGrid

  datatype Run = Run(dark: bool, len: nat)

  // ---- maximal runs ----

  function Runs(s: seq<bool>): seq<Run> {
    if |s| == 0 then [] else Extend(Runs(s[..|s| - 1]), s[|s| - 1])
  }

  // One more module: it lengthens the last run or starts a new one.
  function Extend(r: seq<Run>, b: bool): seq<Run> {
    if LastIs(r, b) then Lengthen(r, 1) else r + [Run(b, 1)]
  }

  predicate LastIs(r: seq<Run>, b: bool) { |r| > 0 && r[|r| - 1].dark == b }

  function Lengthen(r: seq<Run>, n: nat): (r': seq<Run>)
    requires |r| > 0
    ensures |r'| == |r|
  {
    r[|r| - 1 := Run(r[|r| - 1].dark, r[|r| - 1].len + n)]
  }

  function Repeat(b: bool, n: nat): (s: seq<bool>)
    ensures |s| == n && forall i :: 0 <= i < n ==> s[i] == b
  {
    if n == 0 then [] else Repeat(b, n - 1) + [b]
  }

  function Expand(r: seq<Run>): seq<bool> {
    if |r| == 0 then [] else Expand(r[..|r| - 1]) + Repeat(r[|r| - 1].dark, r[|r| - 1].len)
  }

  predicate Maximal(r: seq<Run>) {
    && (forall i :: 0 <= i < |r| ==> r[i].len > 0)
    && (forall i :: 0 < i < |r| ==> r[i].dark != r[i - 1].dark)
  }

  lemma RunsSnoc(s: seq<bool>, b: bool)
    ensures Runs(s + [b]) == Extend(Runs(s), b)
  {
    assert (s + [b])[..|s|] == s;
  }

  lemma ExtendExpand(r: seq<Run>, b: bool)
    ensures Expand(Extend(r, b)) == Expand(r) + [b]
  {
    var e := Extend(r, b);
    if LastIs(r, b) {
      var n := |r| - 1;
      assert e[..n] == r[..n];
      hide Repeat;
      calc {
        Expand(e);
        Expand(r[..n]) + Repeat(b, r[n].len + 1);
        { assert Repeat(b, r[n].len + 1) == Repeat(b, r[n].len) + [b] by { RepeatSnoc(b, r[n].len); } }
        Expand(r[..n]) + (Repeat(b, r[n].len) + [b]);
        Expand(r) + [b];
      }
    } else {
      assert e[..|r|] == r;
      assert Repeat(b, 1) == [b];
    }
  }

  lemma RepeatSnoc(b: bool, n: nat) ensures Repeat(b, n + 1) == Repeat(b, n) + [b] {}

  lemma SplitLast<T>(s: seq<T>)
    requires |s| > 0
    ensures s == s[..|s| - 1] + [s[|s| - 1]]
  {}

  lemma SnocAssoc<T>(p: seq<T>, s: seq<T>, n: nat)
    requires n < |s|
    ensures s[..n + 1] == s[..n] + [s[n]]
    ensures p + s[..n + 1] == (p + s[..n]) + [s[n]]
  {}

  lemma ExtendMaximal(r: seq<Run>, b: bool)
    requires Maximal(r)
    ensures Maximal(Extend(r, b))
  {}

  // Runs is the run-length encoding: maximal runs that expand to the line.
  lemma {:induction false} RunsAreMaximal(s: seq<bool>)
    ensures Maximal(Runs(s)) && Expand(Runs(s)) == s
  {
    if |s| > 0 {
      var n := |s| - 1;
      RunsAreMaximal(s[..n]);
      ExtendMaximal(Runs(s[..n]), s[n]);
      ExtendExpand(Runs(s[..n]), s[n]);
      SplitLast(s);
      RunsSnoc(s[..n], s[n]);
      hide *;
    }
  }

  lemma LengthenTwice(r: seq<Run>, b: bool, n: nat)
    ensures LastIs(r, b) ==> Extend(Lengthen(r, n), b) == Lengthen(r, n + 1)
    ensures Extend(r + [Run(b, n)], b) == r + [Run(b, n + 1)]
  {}

  // Appending n > 0 equal modules.
  lemma {:induction false} RunsRepeat(s: seq<bool>, b: bool, n: nat)
    requires n > 0
    ensures Runs(s + Repeat(b, n)) == if LastIs(Runs(s), b) then Lengthen(Runs(s), n) else Runs(s) + [Run(b, n)]
  {
    var t := s + Repeat(b, n - 1);
    assert s + Repeat(b, n) == t + [b] by {
      RepeatSnoc(b, n - 1);
      hide Repeat;
    }
    RunsSnoc(t, b);
    if n == 1 {
      assert t == s;
      hide Runs;
    } else {
      RunsRepeat(s, b, n - 1);
      LengthenTwice(Runs(s), b, n - 1);
      hide *;
    }
  }

  // And the only one.
  lemma {:induction false} RunsAreUnique(r: seq<Run>)
    requires Maximal(r)
    ensures Runs(Expand(r)) == r
  {
    if |r| > 0 {
      var n := |r| - 1;
      RunsAreUnique(r[..n]);
      RunsRepeat(Expand(r[..n]), r[n].dark, r[n].len);
      assert r == r[..n] + [r[n]];
      hide Runs, Repeat;
    }
  }

  // ---- the declarative score of one line ----

  // A run of n >= 5 equal modules costs 3 plus 1 for each module beyond five.
  function RunCost(n: nat): nat { if n >= 5 then n - 2 else 0 }

  function RunScore(r: seq<Run>): nat {
    if |r| == 0 then 0 else RunScore(r[..|r| - 1]) + RunCost(r[|r| - 1].len)
  }

  // Runs i - 6 to i: light, then dark-light-dark-light-dark in proportion
  // 1:1:3:1:1, then light. It counts once for each side whose light run is at
  // least four units wide, the other side being at least one.
  function FinderAt(r: seq<Run>, i: nat): nat
    requires i < |r|
  {
    if i < 6 then 0
    else
      var unit, before, after := r[i - 1].len, r[i - 6].len, r[i].len;
      if unit > 0 && r[i - 2].len == unit && r[i - 3].len == 3 * unit && r[i - 4].len == unit && r[i - 5].len == unit
      then (if after >= 4 * unit && before >= unit then 1 else 0) + (if before >= 4 * unit && after >= unit then 1 else 0)
      else 0
  }

  // Finder-like patterns that end in a light run among the first n runs.
  function FinderTo(r: seq<Run>, n: nat): nat
    requires n <= |r|
  {
    if n == 0 then 0 else FinderTo(r, n - 1) + if r[n - 1].dark then 0 else FinderAt(r, n - 1)
  }

  // The line with the quiet zone on both sides.
  function Padded(line: seq<bool>): seq<bool> {
    Repeat(false, |line|) + line + Repeat(false, |line|)
  }

  function LineScore(line: seq<bool>): nat {
    var r := Runs(Padded(line));
    RunScore(Runs(line)) + 40 * FinderTo(r, |r|)
  }

  // ---- the source's single pass ----

  // history holds the lengths of the last seven completed runs, latest first.
  ghost predicate History(h: seq<int>, r: seq<Run>, n: nat) {
    |h| == 7 && n <= |r| && forall i :: 0 <= i < 7 ==> h[i] == if i < n then r[n - 1 - i].len else 0
  }

  function Pushed(h: seq<int>, run: int, size: nat): seq<int>
    requires |h| == 7
  {
    [if h[0] == 0 then run + size else run] + h[..6]
  }

  method AddHistory(run: int, history: array<int>, size: nat)
    requires history.Length == 7
    modifies history
    ensures history[..] == Pushed(old(history[..]), run, size)
  {
    var len := if history[0] == 0 then run + size else run;
    forall i | 1 <= i < 7 { history[i] := history[i - 1]; }
    history[0] := len;
  }

  function CountFinderLike(h: seq<int>): int
    requires |h| == 7
  {
    var n := h[1];
    var core := n > 0 && h[2] == n && h[3] == n * 3 && h[4] == n && h[5] == n;
    (if core && h[0] >= n * 4 && h[6] >= n then 1 else 0) + (if core && h[6] >= n * 4 && h[0] >= n then 1 else 0)
  }

  lemma CountIsFinderAt(h: seq<int>, r: seq<Run>, n: nat)
    requires n > 0 && History(h, r, n)
    ensures CountFinderLike(h) == FinderAt(r, n - 1)
  {
    assert h[0] == r[n - 1].len;
    assert n > 1 ==> h[1] == r[n - 2].len;
  }

  function LineOf(g: seq<bv8>, size: nat, k: nat, vertical: bool): (line: seq<bool>)
    requires size * size <= |g| && k < size
    ensures |line| == size
  {
    seq(size, i requires 0 <= i < size => Dark(if vertical then CellAt(g, size, k, i) else CellAt(g, size, i, k)))
  }

  // What the loop knows, about the runs r of the padded prefix and own of the
  // prefix: the completed runs are in the history, the last one is being
  // counted, and the score covers everything so far.
  ghost predicate State(size: nat, r: seq<Run>, own: seq<Run>, color: bool, run: nat, h: seq<int>, score: int) {
    && |r| > 0 && Maximal(r)
    && History(h, r, |r| - 1)
    && r[|r| - 1] == Run(color, if |r| == 1 then run + size else run)
    && (if |own| == 0 then run == 0 && !color else own[|own| - 1] == Run(color, run))
    && score == RunScore(own) + 40 * FinderTo(r, |r| - 1)
  }

  ghost predicate Scanned(line: seq<bool>, x: nat, color: bool, run: nat, h: seq<int>, score: int) {
    x <= |line| &&
    State(|line|, Runs(Repeat(false, |line|) + line[..x]), Runs(line[..x]), color, run, h, score)
  }

  lemma ScanStart(line: seq<bool>)
    requires |line| > 0
    ensures Scanned(line, 0, false, 0, [0, 0, 0, 0, 0, 0, 0], 0)
  {
    var pad := Repeat(false, |line|);
    assert pad + line[..0] == [] + pad && Runs([]) == [];
    RunsRepeat([], false, |line|);
    hide Runs;
  }

  // One more module of the padded prefix.
  lemma PrefixRuns(line: seq<bool>, x: nat)
    requires x < |line|
    ensures var pad := Repeat(false, |line|);
            && Runs(pad + line[..x + 1]) == Extend(Runs(pad + line[..x]), line[x])
            && Runs(line[..x + 1]) == Extend(Runs(line[..x]), line[x])
  {
    hide Runs, Repeat, Extend;
    var pad := Repeat(false, |line|);
    SnocAssoc(pad, line, x);
    RunsSnoc(pad + line[..x], line[x]);
    RunsSnoc(line[..x], line[x]);
  }

  // FinderTo and RunScore look only at the first n runs.
  lemma {:induction false} FinderPrefix(r: seq<Run>, r': seq<Run>, n: nat)
    requires n <= |r| && n <= |r'| && r[..n] == r'[..n]
    ensures FinderTo(r, n) == FinderTo(r', n)
  {
    if n > 0 {
      assert forall i :: 0 <= i < n ==> r[i] == r[..n][i] == r'[..n][i] == r'[i];
      FinderPrefix(r, r', n - 1);
    }
  }

  lemma ScoreSnoc(r: seq<Run>, x: Run)
    ensures RunScore(r + [x]) == RunScore(r) + RunCost(x.len)
  {
    hide RunCost;
    assert (r + [x])[..|r|] == r;
  }

  lemma {:induction false} ExtendScore(r: seq<Run>, b: bool)
    ensures RunScore(Extend(r, b)) == RunScore(r)
              + if |r| > 0 && r[|r| - 1].dark == b then RunCost(r[|r| - 1].len + 1) - RunCost(r[|r| - 1].len) else 0
  {
    hide RunScore;
    if |r| > 0 && r[|r| - 1].dark == b {
      var front, last := r[..|r| - 1], r[|r| - 1];
      assert r == front + [last] && Extend(r, b) == front + [Run(b, last.len + 1)];
      ScoreSnoc(front, last);
      ScoreSnoc(front, Run(b, last.len + 1));
    } else {
      ScoreSnoc(r, Run(b, 1));
    }
  }

  lemma StateSame(size: nat, r: seq<Run>, own: seq<Run>, color: bool, run: nat, h: seq<int>, score: int)
    requires State(size, r, own, color, run, h, score)
    ensures State(size, Extend(r, color), Extend(own, color), color, run + 1, h,
                  score + if run + 1 == 5 then 3 else if run + 1 > 5 then 1 else 0)
  {
    ExtendScore(own, color);
    FinderPrefix(r, Extend(r, color), |r| - 1);
    ExtendMaximal(r, color);
    hide RunScore, FinderTo, Maximal;
  }

  // Completing the current run.
  lemma HistoryPush(size: nat, r: seq<Run>, color: bool, run: nat, h: seq<int>, r': seq<Run>)
    requires |r| > 0 && Maximal(r) && History(h, r, |r| - 1) && r <= r'
    requires r[|r| - 1] == Run(color, if |r| == 1 then run + size else run)
    ensures History(Pushed(h, run, size), r', |r|)
    ensures CountFinderLike(Pushed(h, run, size)) == FinderAt(r', |r| - 1)
  {
    assert h[0] == if 0 < |r| - 1 then r[|r| - 2].len else 0;
    CountIsFinderAt(Pushed(h, run, size), r', |r|);
    hide CountFinderLike, FinderAt;
  }

  lemma FinderStep(r: seq<Run>, n: nat)
    requires n < |r|
    ensures FinderTo(r, n + 1) == FinderTo(r, n) + if r[n].dark then 0 else FinderAt(r, n)
  {}

  lemma OneCost()
    ensures RunCost(1) == 0
  {}

  lemma StateChange(size: nat, r: seq<Run>, own: seq<Run>, color: bool, run: nat, h: seq<int>, score: int)
    requires State(size, r, own, color, run, h, score)
    ensures var next := Pushed(h, run, size);
            State(size, Extend(r, !color), Extend(own, !color), !color, 1, next,
                  score + if color then 0 else 40 * CountFinderLike(next))
  {
    hide RunScore, RunCost, FinderTo, Maximal, FinderAt, History, CountFinderLike, Pushed;
    var r' := Extend(r, !color);
    ExtendScore(own, !color);
    FinderPrefix(r, r', |r| - 1);
    ExtendMaximal(r, !color);
    HistoryPush(size, r, color, run, h, r');
    FinderStep(r', |r| - 1);
    OneCost();
  }

  lemma ScanSame(line: seq<bool>, x: nat, color: bool, run: nat, h: seq<int>, score: int)
    requires x < |line| && line[x] == color && Scanned(line, x, color, run, h, score)
    ensures Scanned(line, x + 1, color, run + 1, h, score + if run + 1 == 5 then 3 else if run + 1 > 5 then 1 else 0)
  {
    hide Runs, State, Extend;
    PrefixRuns(line, x);
    StateSame(|line|, Runs(Repeat(false, |line|) + line[..x]), Runs(line[..x]), color, run, h, score);
  }

  lemma ScanChange(line: seq<bool>, x: nat, color: bool, run: nat, h: seq<int>, score: int)
    requires x < |line| && line[x] != color && Scanned(line, x, color, run, h, score)
    ensures |h| == 7
    ensures var next := Pushed(h, run, |line|);
            Scanned(line, x + 1, line[x], 1, next, score + if color then 0 else 40 * CountFinderLike(next))
  {
    hide Runs, Extend, CountFinderLike;
    PrefixRuns(line, x);
    StateChange(|line|, Runs(Repeat(false, |line|) + line[..x]), Runs(line[..x]), color, run, h, score);
  }

  method TerminateAndCount(color: bool, run: int, history: array<int>, size: nat) returns (count: int)
    requires history.Length == 7
    modifies history
    ensures var h0 := old(history[..]);
            count == CountFinderLike(if color then Pushed(Pushed(h0, run, size), size, size) else Pushed(h0, run + size, size))
  {
    var run' := run;
    if color {
      AddHistory(run, history, size);
      run' := 0;
    }
    run' := run' + size;
    AddHistory(run', history, size);
    count := CountFinderLike(history[..]);
  }

  // The quiet zone closes the line: its last light run is the last to count.
  lemma EndDark(size: nat, r: seq<Run>, own: seq<Run>, run: nat, h: seq<int>, score: int)
    requires size > 0 && State(size, r, own, true, run, h, score)
    ensures var full := r + [Run(false, size)];
            score + 40 * CountFinderLike(Pushed(Pushed(h, run, size), size, size))
            == RunScore(own) + 40 * FinderTo(full, |full|)
  {
    hide FinderTo, FinderAt, RunScore, CountFinderLike, Pushed;
    var full := r + [Run(false, size)];
    FinderPrefix(r, full, |r| - 1);
    HistoryPush(size, r, true, run, h, full);
    HistoryPush(size, full, false, size, Pushed(h, run, size), full);
    FinderStep(full, |r| - 1);
    FinderStep(full, |r|);
  }

  lemma EndLight(size: nat, r: seq<Run>, own: seq<Run>, run: nat, h: seq<int>, score: int)
    requires size > 0 && State(size, r, own, false, run, h, score)
    ensures var full := Lengthen(r, size);
            score + 40 * CountFinderLike(Pushed(h, run + size, size)) == RunScore(own) + 40 * FinderTo(full, |full|)
  {
    hide FinderTo, FinderAt, RunScore, CountFinderLike, Pushed;
    var full := Lengthen(r, size);
    FinderPrefix(r, full, |r| - 1);
    HistoryPush(size, full, false, run + size, h, full);
    FinderStep(full, |r| - 1);
  }

  lemma ScanEnd(line: seq<bool>, color: bool, run: nat, h: seq<int>, score: int)
    requires |line| > 0 && Scanned(line, |line|, color, run, h, score)
    ensures |h| == 7
    ensures score + 40 * CountFinderLike(if color then Pushed(Pushed(h, run, |line|), |line|, |line|)
                                         else Pushed(h, run + |line|, |line|)) == LineScore(line)
  {
    hide Runs, CountFinderLike, RunScore, FinderTo, FinderAt, Maximal, Repeat;
    var n := |line|;
    assert line[..n] == line;
    RunsRepeat(Repeat(false, n) + line, false, n);
    if color {
      EndDark(n, Runs(Repeat(false, n) + line), Runs(line), run, h, score);
    } else {
      EndLight(n, Runs(Repeat(false, n) + line), Runs(line), run, h, score);
    }
  }

  method ScanLine(m: array<bv8>, size: nat, k: nat, vertical: bool) returns (score: int)
    requires Fits(m, size) && k < size
    ensures score == LineScore(LineOf(m[..], size, k, vertical))
  {
    hide Scanned, LineScore, CountFinderLike, CellAt;
    ghost var line := LineOf(m[..], size, k, vertical);
    score := 0;
    var color, run := false, 0;
    var history := new int[7](_ => 0);
    assert history[..] == [0, 0, 0, 0, 0, 0, 0];
    ScanStart(line);
    for x := 0 to size
      invariant Scanned(line, x, color, run, history[..], score)
    {
      var dark := Dark(if vertical then ReadCell(m, size, k, x) else ReadCell(m, size, x, k));
      if dark == color {
        ScanSame(line, x, color, run, history[..], score);
        run := run + 1;
        if run == 5 {
          score := score + 3;
        } else if run > 5 {
          score := score + 1;
        }
      } else {
        ScanChange(line, x, color, run, history[..], score);
        AddHistory(run, history, size);
        if !color {
          score := score + CountFinderLike(history[..]) * 40;
        }
        color := dark;
        run := 1;
      }
    }
    ScanEnd(line, color, run, history[..], score);
    var last := TerminateAndCount(color, run, history, size);
    score := score + last * 40;
  }

  // ---- blocks and balance ----

  predicate BlockAt(g: seq<bv8>, size: nat, x: int, y: int)
    requires size * size <= |g| && 0 <= x < size - 1 && 0 <= y < size - 1
  {
    var c := Dark(CellAt(g, size, x, y));
    c == Dark(CellAt(g, size, x + 1, y)) == Dark(CellAt(g, size, x, y + 1)) == Dark(CellAt(g, size, x + 1, y + 1))
  }

  // The 2 x 2 blocks of one colour with their top left corner before (x, y).
  function BlocksTo(g: seq<bv8>, size: nat, x: int, y: int): nat
    requires size * size <= |g| && 0 <= y < size && 0 <= x < size && (y == size - 1 ==> x == 0)
    decreases y, x
  {
    if x > 0 then BlocksTo(g, size, x - 1, y) + if BlockAt(g, size, x - 1, y) then 1 else 0
    else if y > 0 then BlocksTo(g, size, size - 1, y - 1)
    else 0
  }

  function DarkTo(g: seq<bv8>, n: nat): nat
    requires n <= |g|
  {
    if n == 0 then 0 else DarkTo(g, n - 1) + if Dark(g[n - 1]) then 1 else 0
  }

  // The source's rating, in steps of 5% away from an even balance.
  function BalanceSteps(dark: int, total: int): int
    requires total > 0
  {
    var deviation := Abs(dark * 20 - total * 10);
    (deviation + total - 1) / total - 1
  }

  // It is the k with 5k% < |dark% - 50%| <= 5(k + 1)%. Only an exact balance,
  // which an odd total excludes, would rate below zero.
  lemma BalanceMeaning(dark: int, total: int)
    requires 0 <= dark <= total && total > 0
    ensures var k, deviation := BalanceSteps(dark, total), Abs(dark * 20 - total * 10);
            k * total < deviation <= (k + 1) * total
    ensures BalanceSteps(dark, total) >= -1 && (BalanceSteps(dark, total) == -1 <==> 2 * dark == total)
  {
    CeilingDivision(Abs(dark * 20 - total * 10), total);
  }

  lemma CeilingDivision(d: nat, t: nat)
    requires t > 0
    ensures var q := (d + t - 1) / t;
            (q - 1) * t < d <= q * t && q >= 0 && (q == 0 <==> d == 0)
  {
    var q, r := (d + t - 1) / t, (d + t - 1) % t;
    assert q * t + r == d + t - 1;
    assert (q - 1) * t == q * t - t;
    if q >= 1 {
      assert q * t >= t;
    }
  }

  function LinesTo(g: seq<bv8>, size: nat, vertical: bool, k: nat): nat
    requires size * size <= |g| && k <= size
  {
    if k == 0 then 0 else LinesTo(g, size, vertical, k - 1) + LineScore(LineOf(g, size, k - 1, vertical))
  }

  function Penalty(g: seq<bv8>, size: nat): int
    requires size > 0 && size * size <= |g|
  {
    LinesTo(g, size, false, size) + LinesTo(g, size, true, size)
    + 3 * BlocksTo(g, size, 0, size - 1) + 10 * BalanceSteps(DarkTo(g, size * size), size * size)
  }

  // ---- the source's penalty ----

  method PenaltyScore(m: array<bv8>, size: nat) returns (result: int)
    requires Fits(m, size) && size > 0
    ensures result == Penalty(m[..], size)
  {
    hide LineOf, LineScore, BlockAt, CellAt;
    result := 0;
    for y := 0 to size
      invariant result == LinesTo(m[..], size, false, y)
    {
      var score := ScanLine(m, size, y, false);
      result := result + score;
    }
    for x := 0 to size
      invariant result == LinesTo(m[..], size, false, size) + LinesTo(m[..], size, true, x)
    {
      var score := ScanLine(m, size, x, true);
      result := result + score;
    }
    ghost var lines := result;
    var blocks := ScoreBlocks(m, size);
    result := result + blocks;
    AreaPositive(size);
    var dark := 0;
    for i := 0 to size * size
      invariant dark == DarkTo(m[..], i)
    {
      dark := dark + if Dark(m[i]) then 1 else 0;
    }
    var total := size * size;
    var deviation := dark * 20 - total * 10;
    if deviation < 0 {
      deviation := -deviation;
    }
    result := result + ((deviation + total - 1) / total - 1) * 10;
  }

  lemma AreaPositive(size: nat)
    requires size > 0
    ensures size * size > 0
  {}

  method ScoreBlocks(m: array<bv8>, size: nat) returns (result: int)
    requires Fits(m, size) && size > 0
    ensures result == 3 * BlocksTo(m[..], size, 0, size - 1)
  {
    hide CellAt;
    result := 0;
    for y := 0 to size - 1
      invariant result == 3 * BlocksTo(m[..], size, 0, y)
    {
      for x := 0 to size - 1
        invariant result == 3 * BlocksTo(m[..], size, x, y)
      {
        var c := Dark(ReadCell(m, size, x, y));
        if c == Dark(ReadCell(m, size, x + 1, y)) && c == Dark(ReadCell(m, size, x, y + 1))
           && c == Dark(ReadCell(m, size, x + 1, y + 1)) {
          result := result + 3;
        }
      }
    }
  }

  // An odd side makes an exact balance impossible, so no symbol scores below zero.
  lemma PenaltyNonnegative(g: seq<bv8>, size: nat)
    requires size % 2 == 1 && size * size <= |g|
    ensures Penalty(g, size) >= 0
  {
    hide LinesTo, BlocksTo;
    OddSquare(size);
    DarkBound(g, size * size);
    BalanceMeaning(DarkTo(g, size * size), size * size);
  }

  lemma OddSquare(n: nat)
    requires n % 2 == 1
    ensures n * n % 2 == 1
  {
    var k := n / 2;
    assert n * n == 2 * (2 * k * k + 2 * k) + 1;
  }

  lemma {:induction false} DarkBound(g: seq<bv8>, n: nat)
    requires n <= |g|
    ensures DarkTo(g, n) <= n
  {
    if n > 0 { DarkBound(g, n - 1); }
  }
}
