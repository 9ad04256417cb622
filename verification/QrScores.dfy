/**
 The penalty score on symbols where it can be worked out by hand (ISO/IEC
 18004:2000, table 24): lines of a few runs, and symbols whose rows or whose
 columns are all alike.
 */
module QrScores {
  import opened QrGrid
  import opened QrPenalty

  // ---- lines of a few runs ----

  // 3 points for five equal modules in a row and 1 for each one more.
  function RowPoints(n: nat): nat { if n < 5 then 0 else if n == 5 then 3 else 3 + (n - 5) }

  lemma {:induction false} FewRuns(r: seq<Run>, n: nat)
    requires n <= |r| && n <= 6
    ensures FinderTo(r, n) == 0
  {
    if n > 0 {
      FewRuns(r, n - 1);
    }
  }

  lemma NoRuns()
    ensures RunScore([]) == 0 && Expand([]) == []
  {}

  lemma ExpandBack(r: seq<Run>, x: Run)
    ensures Expand(r + [x]) == Expand(r) + Repeat(x.dark, x.len)
  {
    hide Repeat;
    assert (r + [x])[..|r|] == r;
  }

  lemma {:induction false} ExpandFront(x: Run, r: seq<Run>)
    ensures Expand([x] + r) == Repeat(x.dark, x.len) + Expand(r)
  {
    hide Repeat;
    if |r| == 0 {
      assert [x] + r == [] + [x];
      ExpandBack([], x);
      NoRuns();
      hide Expand;
    } else {
      var n := |r| - 1;
      ExpandFront(x, r[..n]);
      assert [x] + r == [x] + r[..n] + [r[n]] && r == r[..n] + [r[n]];
      ExpandBack([x] + r[..n], r[n]);
      ExpandBack(r[..n], r[n]);
      hide Expand;
    }
  }

  // A line that begins and ends dark has its quiet zone as two runs of their own.
  lemma PaddedRuns(r: seq<Run>)
    requires Maximal(r) && |r| > 0 && r[0].dark && r[|r| - 1].dark
    ensures var n := |Expand(r)|; n > 0 && Runs(Padded(Expand(r))) == [Run(false, n)] + r + [Run(false, n)]
  {
    hide Repeat, Runs;
    var n := |Expand(r)|;
    assert n > 0;
    var full := [Run(false, n)] + r + [Run(false, n)];
    assert full[..|full| - 1] == [Run(false, n)] + r;
    ExpandFront(Run(false, n), r);
    assert Expand(full) == Padded(Expand(r));
    RunsAreUnique(full);
  }

  lemma OneMore(r: seq<Run>, x: Run)
    ensures RunScore(r + [x]) == RunScore(r) + RowPoints(x.len) && |Expand(r + [x])| == |Expand(r)| + x.len
  {
    assert (r + [x])[..|r|] == r;
  }

  lemma FiveTotals(r: seq<Run>)
    requires |r| == 5
    ensures RunScore(r) == RowPoints(r[0].len) + RowPoints(r[1].len) + RowPoints(r[2].len) + RowPoints(r[3].len)
                           + RowPoints(r[4].len)
    ensures |Expand(r)| == r[0].len + r[1].len + r[2].len + r[3].len + r[4].len
  {
    hide RunScore, Expand, RowPoints;
    NoRuns();
    OneMore([], r[0]);
    OneMore([r[0]], r[1]);
    OneMore([r[0], r[1]], r[2]);
    OneMore([r[0], r[1], r[2]], r[3]);
    OneMore([r[0], r[1], r[2], r[3]], r[4]);
    assert [] + [r[0]] == [r[0]] && [r[0]] + [r[1]] == [r[0], r[1]] && [r[0], r[1]] + [r[2]] == [r[0], r[1], r[2]];
    assert [r[0], r[1], r[2]] + [r[3]] == [r[0], r[1], r[2], r[3]] && [r[0], r[1], r[2], r[3]] + [r[4]] == r;
  }

  // Dark, light, dark, light, dark: 80 more points for a finder pattern's
  // proportions, which have the quiet zone on both sides, and none otherwise.
  lemma FiveRuns(a: nat, b: nat, c: nat, d: nat, e: nat)
    requires a > 0 && b > 0 && c > 0 && d > 0 && e > 0
    ensures LineScore(Expand([Run(true, a), Run(false, b), Run(true, c), Run(false, d), Run(true, e)]))
            == RowPoints(a) + RowPoints(b) + RowPoints(c) + RowPoints(d) + RowPoints(e)
               + if a == b && c == 3 * a && d == a && e == a then 80 else 0
  {
    hide Expand, Runs, Padded, RunScore, RowPoints, FinderTo;
    var r := [Run(true, a), Run(false, b), Run(true, c), Run(false, d), Run(true, e)];
    PaddedRuns(r);
    RunsAreUnique(r);
    FiveTotals(r);
    var q := Run(false, |Expand(r)|);
    FewRuns([q] + r + [q], 6);
    FinderStep([q] + r + [q], 6);
  }

  // Behind another dark run and w light modules, the pattern has the quiet zone
  // on one side: 40 points for that side if w is at least one unit, and 40 for
  // the other if it is at least four.
  lemma SevenRuns(x: nat, w: nat, u: nat)
    requires x > 0 && w > 0 && u > 0
    ensures LineScore(Expand([Run(true, x), Run(false, w), Run(true, u), Run(false, u), Run(true, 3 * u),
                              Run(false, u), Run(true, u)]))
            == RowPoints(x) + RowPoints(w) + 4 * RowPoints(u) + RowPoints(3 * u)
               + (if w >= u then 40 else 0) + if w >= 4 * u then 40 else 0
  {
    hide Expand, Runs, Padded, RunScore, RowPoints, FinderTo;
    var five := [Run(true, x), Run(false, w), Run(true, u), Run(false, u), Run(true, 3 * u)];
    var six, r := five + [Run(false, u)], five + [Run(false, u)] + [Run(true, u)];
    assert r == [Run(true, x), Run(false, w), Run(true, u), Run(false, u), Run(true, 3 * u), Run(false, u), Run(true, u)];
    PaddedRuns(r);
    RunsAreUnique(r);
    FiveTotals(five);
    OneMore(five, Run(false, u));
    OneMore(six, Run(true, u));
    var q := Run(false, |Expand(r)|);
    FewRuns([q] + r + [q], 6);
    FinderStep([q] + r + [q], 6);
    FinderStep([q] + r + [q], 7);
    FinderStep([q] + r + [q], 8);
  }

  // ---- symbols whose rows, or whose columns, are all alike ----

  ghost predicate RowsAre(g: seq<bv8>, row: seq<bool>) {
    |g| == |row| * |row| && forall x, y :: InGrid(|row|, x, y) ==> Dark(CellAt(g, |row|, x, y)) == row[x]
  }

  ghost predicate ColumnsAre(g: seq<bv8>, column: seq<bool>) {
    |g| == |column| * |column| && forall x, y :: InGrid(|column|, x, y) ==> Dark(CellAt(g, |column|, x, y)) == column[y]
  }

  // Neighbours of one colour among the first n + 1 modules, and dark ones among the first n.
  function Alike(row: seq<bool>, n: nat): nat
    requires n < |row|
  {
    if n == 0 then 0 else Alike(row, n - 1) + if row[n - 1] == row[n] then 1 else 0
  }

  function Ones(row: seq<bool>, n: nat): nat
    requires n <= |row|
  {
    if n == 0 then 0 else Ones(row, n - 1) + if row[n - 1] then 1 else 0
  }

  lemma EvenRuns(b: bool, n: nat)
    requires n > 0
    ensures Runs(Repeat(b, n)) == [Run(b, n)]
    ensures |Runs(Padded(Repeat(b, n)))| <= 3
  {
    hide Repeat, Runs;
    var q, line := Repeat(false, n), Repeat(b, n);
    NothingYet();
    assert [] + q == q && [] + line == line;
    RunsRepeat([], false, n);
    RunsRepeat([], b, n);
    RunsRepeat(q, b, n);
    RunsRepeat(q + line, false, n);
  }

  lemma NothingYet()
    ensures Runs([]) == []
  {}

  lemma EvenLine(b: bool, n: nat)
    requires n >= 5
    ensures LineScore(Repeat(b, n)) == n - 2
  {
    hide Repeat, Runs, RunScore, FinderTo, Padded;
    EvenRuns(b, n);
    FewRuns(Runs(Padded(Repeat(b, n))), |Runs(Padded(Repeat(b, n)))|);
    NoRuns();
    OneMore([], Run(b, n));
    assert [] + [Run(b, n)] == [Run(b, n)];
  }

  lemma {:induction false} RowLines(g: seq<bv8>, row: seq<bool>, k: nat)
    requires RowsAre(g, row) && |row| >= 5 && k <= |row|
    ensures LinesTo(g, |row|, false, k) == k * LineScore(row) && LinesTo(g, |row|, true, k) == k * (|row| - 2)
  {
    hide LineScore, CellAt, Dark;
    if k > 0 {
      RowLines(g, row, k - 1);
      assert LineOf(g, |row|, k - 1, false) == row;
      assert LineOf(g, |row|, k - 1, true) == Repeat(row[k - 1], |row|);
      EvenLine(row[k - 1], |row|);
      assert (k - 1) * LineScore(row) + LineScore(row) == k * LineScore(row);
      assert (k - 1) * (|row| - 2) + (|row| - 2) == k * (|row| - 2);
    }
  }

  lemma {:induction false} ColumnLines(g: seq<bv8>, column: seq<bool>, k: nat)
    requires ColumnsAre(g, column) && |column| >= 5 && k <= |column|
    ensures LinesTo(g, |column|, true, k) == k * LineScore(column) && LinesTo(g, |column|, false, k) == k * (|column| - 2)
  {
    hide LineScore, CellAt, Dark;
    if k > 0 {
      ColumnLines(g, column, k - 1);
      assert LineOf(g, |column|, k - 1, true) == column;
      assert LineOf(g, |column|, k - 1, false) == Repeat(column[k - 1], |column|);
      EvenLine(column[k - 1], |column|);
      assert (k - 1) * LineScore(column) + LineScore(column) == k * LineScore(column);
      assert (k - 1) * (|column| - 2) + (|column| - 2) == k * (|column| - 2);
    }
  }

  lemma {:induction false} RowBlocks(g: seq<bv8>, row: seq<bool>, x: int, y: int)
    requires RowsAre(g, row) && 0 <= y < |row| && 0 <= x < |row| && (y == |row| - 1 ==> x == 0)
    ensures BlocksTo(g, |row|, x, y) == y * Alike(row, |row| - 1) + Alike(row, x)
    decreases y, x
  {
    hide CellAt, Dark;
    if x > 0 {
      RowBlocks(g, row, x - 1, y);
    } else if y > 0 {
      RowBlocks(g, row, |row| - 1, y - 1);
      assert (y - 1) * Alike(row, |row| - 1) + Alike(row, |row| - 1) == y * Alike(row, |row| - 1);
    }
  }

  lemma {:induction false} ColumnBlocks(g: seq<bv8>, column: seq<bool>, x: int, y: int)
    requires ColumnsAre(g, column) && 0 <= y < |column| && 0 <= x < |column| && (y == |column| - 1 ==> x == 0)
    ensures BlocksTo(g, |column|, x, y) ==
            Alike(column, y) * (|column| - 1) + if y < |column| - 1 && column[y] == column[y + 1] then x else 0
    decreases y, x
  {
    hide CellAt, Dark;
    if x > 0 {
      ColumnBlocks(g, column, x - 1, y);
    } else if y > 0 {
      ColumnBlocks(g, column, |column| - 1, y - 1);
      if column[y - 1] == column[y] {
        assert (Alike(column, y - 1) + 1) * (|column| - 1) == Alike(column, y - 1) * (|column| - 1) + (|column| - 1);
      }
    }
  }

  lemma CellIndex(g: seq<bv8>, size: nat, x: int, y: int)
    requires |g| == size * size && 0 < x <= size && 0 <= y < size
    ensures 0 <= y * size + x <= |g| && y * size + x - 1 >= 0 && CellAt(g, size, x - 1, y) == g[y * size + x - 1]
  {
    IdxInRange(size, x - 1, y);
  }

  lemma {:induction false} RowDark(g: seq<bv8>, row: seq<bool>, x: nat, y: nat)
    requires RowsAre(g, row) && x <= |row| && (y < |row| || (y == |row| && x == 0))
    ensures 0 <= y * |row| + x <= |g| && DarkTo(g, y * |row| + x) == y * Ones(row, |row|) + Ones(row, x)
    decreases y, x
  {
    hide CellAt, Dark;
    if x > 0 {
      RowDark(g, row, x - 1, y);
      CellIndex(g, |row|, x, y);
    } else if y > 0 {
      RowDark(g, row, |row|, y - 1);
      assert (y - 1) * |row| + |row| == y * |row|;
      assert (y - 1) * Ones(row, |row|) + Ones(row, |row|) == y * Ones(row, |row|);
    }
  }

  lemma {:induction false} ColumnDark(g: seq<bv8>, column: seq<bool>, x: nat, y: nat)
    requires ColumnsAre(g, column) && x <= |column| && (y < |column| || (y == |column| && x == 0))
    ensures 0 <= y * |column| + x <= |g|
    ensures DarkTo(g, y * |column| + x) == Ones(column, y) * |column| + if y < |column| && column[y] then x else 0
    decreases y, x
  {
    hide CellAt, Dark;
    if x > 0 {
      ColumnDark(g, column, x - 1, y);
      CellIndex(g, |column|, x, y);
    } else if y > 0 {
      ColumnDark(g, column, |column|, y - 1);
      assert (y - 1) * |column| + |column| == y * |column|;
      if column[y - 1] {
        assert (Ones(column, y - 1) + 1) * |column| == Ones(column, y - 1) * |column| + |column|;
      }
    }
  }

  // All rows alike, or all columns: the lines of one direction score like the one
  // they repeat, those of the other are single runs, and each pair of equal
  // neighbours makes a row of blocks.
  lemma StripesScore(g: seq<bv8>, line: seq<bool>)
    requires (RowsAre(g, line) || ColumnsAre(g, line)) && |line| >= 5
    ensures |g| == |line| * |line| > 0
    ensures Penalty(g, |line|) == |line| * LineScore(line) + |line| * (|line| - 2) + 3 * ((|line| - 1) * Alike(line, |line| - 1))
                                  + 10 * BalanceSteps(|line| * Ones(line, |line|), |line| * |line|)
  {
    hide LineScore, CellAt, Dark, LinesTo, BlocksTo, DarkTo, BalanceSteps;
    var n := |line|;
    AreaPositive(n);
    if RowsAre(g, line) {
      RowLines(g, line, n);
      RowBlocks(g, line, 0, n - 1);
      RowDark(g, line, 0, n);
    } else {
      ColumnLines(g, line, n);
      ColumnBlocks(g, line, 0, n - 1);
      ColumnDark(g, line, 0, n);
    }
  }

  lemma {:induction false} EvenCounts(b: bool, n: nat, k: nat)
    requires k < n
    ensures Alike(Repeat(b, n), k) == k && Ones(Repeat(b, n), k + 1) == (if b then k + 1 else 0)
  {
    hide Repeat;
    if k > 0 {
      EvenCounts(b, n, k - 1);
    }
  }

  // A symbol of one colour: every line is one run, every block counts, and the
  // balance is nine steps of 5% off.
  lemma OneColourScore(g: seq<bv8>, b: bool, n: nat)
    requires n >= 5 && RowsAre(g, Repeat(b, n))
    ensures |g| == n * n > 0 && Penalty(g, n) == 2 * (n * (n - 2)) + 3 * ((n - 1) * (n - 1)) + 90
  {
    hide Repeat, LineScore, Penalty, RowsAre, Alike, Ones;
    StripesScore(g, Repeat(b, n));
    EvenLine(b, n);
    EvenCounts(b, n, n - 1);
    OneColourBalance(b, n);
  }

  lemma OneColourBalance(b: bool, n: nat)
    requires n > 0
    ensures n * n > 0 && BalanceSteps(n * (if b then n else 0), n * n) == 9
  {
    AreaPositive(n);
    FarOff(n * n);
  }

  lemma FarOff(t: nat)
    requires t > 0
    ensures BalanceSteps(0, t) == 9 && BalanceSteps(t, t) == 9
  {
    assert (10 * t + t - 1) / t == 10 by {
      CeilingDivision(10 * t, t);
      Ten((10 * t + t - 1) / t, t);
    }
  }

  lemma AtMost(a: int, b: int, t: nat)
    ensures a <= b ==> a * t <= b * t
  {
    if a <= b {
      assert b * t == a * t + (b - a) * t;
    }
  }

  lemma Ten(q: int, t: nat)
    requires t > 0 && (q - 1) * t < 10 * t <= q * t
    ensures q == 10
  {
    AtMost(10, q - 1, t);
    AtMost(q, 9, t);
  }
}
