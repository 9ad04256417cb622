/**
 Codeword placement (ISO/IEC 18004:2000, 8.7.3): the zigzag through the free
 modules. `Order` lists the free cells in the order the source's triple loop
 meets them; the encoder writes bit k into the k-th of them and a reader takes
 it out again. The zigzag is a bijection with the cells outside column 6.
 */
module QrPlacement {
  import opened Gf256
  import opened QrBits
  import opened QrGrid

  datatype Cell = Cell(x: int, y: int)

  predicate OddSize(size: nat) { size >= 7 && size % 2 == 1 }

  function Pairs(size: nat): int { (size - 1) / 2 }

  // Right column of the p-th column pair; column 6 is skipped.
  function Right(size: nat, p: int): int {
    var r := size - 1 - 2 * p;
    if r <= 6 then r - 1 else r
  }

  predicate Upward(right: int) { (right + 1) / 2 % 2 == 0 }

  // The j-th cell of row step `vert` in pair p.
  function CellOf(size: nat, p: int, vert: int, j: int): Cell {
    var right := Right(size, p);
    Cell(right - j, if Upward(right) then size - 1 - vert else vert)
  }

  // ---- the inverse: where the zigzag meets a cell ----

  function PairOf(size: nat, x: int): int { (size - 1 - (if x < 6 then x + 1 else x)) / 2 }
  function SideOf(size: nat, x: int): int { (size - 1 - (if x < 6 then x + 1 else x)) % 2 }
  function VertOf(size: nat, x: int, y: int): int {
    if Upward(Right(size, PairOf(size, x))) then size - 1 - y else y
  }

  predicate Step(size: nat, p: int, vert: int, j: int) {
    0 <= p < Pairs(size) && 0 <= vert < size && 0 <= j < 2
  }

  lemma ZigzagIsInjective(size: nat, p: int, vert: int, j: int)
    requires OddSize(size) && Step(size, p, vert, j)
    ensures var c := CellOf(size, p, vert, j);
            InGrid(size, c.x, c.y) && c.x != 6
            && PairOf(size, c.x) == p && VertOf(size, c.x, c.y) == vert && SideOf(size, c.x) == j
  {}

  lemma ZigzagIsOnto(size: nat, x: int, y: int)
    requires OddSize(size) && InGrid(size, x, y) && x != 6
    ensures Step(size, PairOf(size, x), VertOf(size, x, y), SideOf(size, x))
    ensures CellOf(size, PairOf(size, x), VertOf(size, x, y), SideOf(size, x)) == Cell(x, y)
  {}

  // ---- the free cells in zigzag order ----

  predicate Position(size: nat, p: int, vert: int, j: int) {
    0 <= p <= Pairs(size) && 0 <= vert <= size && 0 <= j <= 2
    && (p == Pairs(size) ==> vert == 0) && (p == Pairs(size) || vert == size ==> j == 0)
  }

  predicate Free(g: seq<bv8>, size: nat, c: Cell)
    requires size * size <= |g|
  {
    InGrid(size, c.x, c.y) && !Func(CellAt(g, size, c.x, c.y))
  }

  // The free cells met before position (p, vert, j).
  function OrderTo(g: seq<bv8>, size: nat, p: int, vert: int, j: int): seq<Cell>
    requires size * size <= |g| && OddSize(size) && Position(size, p, vert, j)
    decreases p, vert, j
  {
    if j > 0 then
      var c := CellOf(size, p, vert, j - 1);
      OrderTo(g, size, p, vert, j - 1) + if Free(g, size, c) then [c] else []
    else if vert > 0 then OrderTo(g, size, p, vert - 1, 2)
    else if p > 0 then OrderTo(g, size, p - 1, size, 0)
    else []
  }

  function Order(g: seq<bv8>, size: nat): seq<Cell>
    requires size * size <= |g| && OddSize(size)
  {
    OrderTo(g, size, Pairs(size), 0, 0)
  }

  predicate Before(size: nat, c: Cell, p: int, vert: int, j: int) {
    var q, v, i := PairOf(size, c.x), VertOf(size, c.x, c.y), SideOf(size, c.x);
    q < p || (q == p && (v < vert || (v == vert && i < j)))
  }

  // Exactly the free cells outside column 6 that come before the position, once each.
  lemma {:induction false} OrderToIsExact(g: seq<bv8>, size: nat, p: int, vert: int, j: int)
    requires size * size <= |g| && OddSize(size) && Position(size, p, vert, j)
    ensures var o := OrderTo(g, size, p, vert, j);
            && (forall c :: c in o <==> Free(g, size, c) && c.x != 6 && Before(size, c, p, vert, j))
            && (forall i, k :: 0 <= i < k < |o| ==> o[i] != o[k])
    decreases p, vert, j
  {
    hide CellAt, Before, CellOf;
    if j > 0 {
      ZigzagIsInjective(size, p, vert, j - 1);
      OrderToIsExact(g, size, p, vert, j - 1);
      forall d | Free(g, size, d) && d.x != 6
        ensures Before(size, d, p, vert, j) <==> Before(size, d, p, vert, j - 1) || d == CellOf(size, p, vert, j - 1)
        ensures Before(size, d, p, vert, j - 1) ==> d != CellOf(size, p, vert, j - 1)
      {
        BeforeStep(size, d, p, vert, j);
      }
    } else if vert > 0 {
      OrderToIsExact(g, size, p, vert - 1, 2);
      forall d | Free(g, size, d) && d.x != 6
        ensures Before(size, d, p, vert, 0) <==> Before(size, d, p, vert - 1, 2)
      {
        BeforeStep(size, d, p, vert, 0);
      }
    } else if p > 0 {
      OrderToIsExact(g, size, p - 1, size, 0);
      forall d | Free(g, size, d) && d.x != 6
        ensures Before(size, d, p, 0, 0) <==> Before(size, d, p - 1, size, 0)
      {
        BeforeStep(size, d, p, 0, 0);
      }
    } else {
      forall d | Free(g, size, d) && d.x != 6 ensures !Before(size, d, 0, 0, 0) {
        BeforeStep(size, d, 0, 0, 0);
      }
    }
  }

  // How the cells before a position grow with it.
  lemma BeforeStep(size: nat, d: Cell, p: int, vert: int, j: int)
    requires OddSize(size) && Position(size, p, vert, j) && InGrid(size, d.x, d.y) && d.x != 6
    ensures j > 0 ==>
              (Before(size, d, p, vert, j) <==> Before(size, d, p, vert, j - 1) || d == CellOf(size, p, vert, j - 1))
    ensures j > 0 && Before(size, d, p, vert, j - 1) ==> d != CellOf(size, p, vert, j - 1)
    ensures j == 0 && vert > 0 ==> (Before(size, d, p, vert, 0) <==> Before(size, d, p, vert - 1, 2))
    ensures j == 0 && vert == 0 && p > 0 ==> (Before(size, d, p, 0, 0) <==> Before(size, d, p - 1, size, 0))
    ensures j == 0 && vert == 0 && p == 0 ==> !Before(size, d, 0, 0, 0)
  {
    ZigzagIsOnto(size, d.x, d.y);
    if j > 0 {
      ZigzagIsInjective(size, p, vert, j - 1);
    }
    hide PairOf, VertOf, SideOf, CellOf, OddSize;
  }

  lemma {:induction false} OrderSameFree(g: seq<bv8>, g': seq<bv8>, size: nat, p: int, vert: int, j: int)
    requires size * size <= |g| && size * size <= |g'| && OddSize(size) && Position(size, p, vert, j)
    requires forall c :: Free(g, size, c) == Free(g', size, c)
    ensures OrderTo(g, size, p, vert, j) == OrderTo(g', size, p, vert, j)
    decreases p, vert, j
  {
    hide Free, CellOf;
    if j > 0 {
      OrderSameFree(g, g', size, p, vert, j - 1);
    } else if vert > 0 {
      OrderSameFree(g, g', size, p, vert - 1, 2);
    } else if p > 0 {
      OrderSameFree(g, g', size, p - 1, size, 0);
    }
  }

  // The zigzag meets every free cell outside column 6 exactly once.
  lemma OrderIsExact(g: seq<bv8>, size: nat)
    requires size * size <= |g| && OddSize(size)
    ensures forall c :: c in Order(g, size) <==> Free(g, size, c) && c.x != 6
    ensures forall i, k :: 0 <= i < k < |Order(g, size)| ==> Order(g, size)[i] != Order(g, size)[k]
  {
    OrderToIsExact(g, size, Pairs(size), 0, 0);
    forall d | Free(g, size, d) && d.x != 6 ensures Before(size, d, Pairs(size), 0, 0) {
      ZigzagIsOnto(size, d.x, d.y);
    }
  }

  function BitCell(b: bool): bv8 { if b then CELL_DARK else 0 }

  ghost predicate Placed(m: seq<bv8>, g: seq<bv8>, size: nat, cw: seq<bv8>, order: seq<Cell>, bit: nat)
    requires size * size <= |m| == |g| && bit <= |order| && bit <= 8 * |cw|
  {
    && (forall k :: 0 <= k < bit ==> Free(g, size, order[k]) && CellAt(m, size, order[k].x, order[k].y) == BitCell(BitAt(cw, k)))
    && (forall x, y :: InGrid(size, x, y) && Cell(x, y) !in order[..bit] ==> CellAt(m, size, x, y) == CellAt(g, size, x, y))
  }

  // The state of the placement loops at a position: the first 8n free cells met
  // so far carry the codeword bits in order, and nothing else has changed.
  ghost predicate PlacedTo(m: seq<bv8>, g: seq<bv8>, size: nat, cw: seq<bv8>, p: int, vert: int, j: int, bit: nat) {
    size * size <= |m| == |g| && OddSize(size) && Position(size, p, vert, j) &&
    var order := OrderTo(g, size, p, vert, j);
    bit == Min(8 * |cw|, |order|) && Placed(m, g, size, cw, order, bit)
  }

  function Min(a: int, b: int): int { if a < b then a else b }

  lemma BitByShift(b: bv8, i: nat)
    requires i < 8
    ensures (b >> i) & 1 == BitCell(BitSet(b, i))
  {
    LowBit(b, i);
  }

  // The source's `right` on entering pair p.
  function Column(size: nat, p: int): int { if size - 1 - 2 * p >= 6 then size - 1 - 2 * p else size - 2 - 2 * p }

  lemma ColumnStep(size: nat, p: int)
    requires OddSize(size) && (p == 0 || 0 <= p <= Pairs(size))
    ensures Column(size, 0) == size - 1 && Pairs(size) > 0
    ensures Column(size, p) >= 1 <==> p < Pairs(size)
    ensures p < Pairs(size) ==> Right(size, p) == if Column(size, p) == 6 then 5 else Column(size, p)
    ensures p < Pairs(size) ==> Column(size, p + 1) == Right(size, p) - 2
  {}

  method PlaceCodewords(m: array<bv8>, size: nat, cw: array<bv8>, n: nat)
    requires Fits(m, size) && OddSize(size) && n <= cw.Length && m != cw
    modifies m
    ensures var order := Order(old(m[..]), size);
            Placed(m[..], old(m[..]), size, cw[..n], order, Min(8 * n, |order|))
    ensures m[size * size..] == old(m[size * size..])
  {
    hide CellAt, BitCell, BitSet, Placed, PlacedTo, OrderTo, Column, Right, Pairs;
    ghost var g := m[..];
    var bit := 0;
    var right, p := size - 1, 0;
    ColumnStep(size, 0);
    PlacedNone(g, size, cw[..n]);
    while right >= 1
      invariant 0 <= p <= Pairs(size) && right == Column(size, p)
      invariant right >= 1 <==> p < Pairs(size)
      decreases Pairs(size) - p
      invariant PlacedTo(m[..], g, size, cw[..n], p, 0, 0, bit)
      invariant m[size * size..] == g[size * size..]
    {
      ColumnStep(size, p);
      if right == 6 { right := 5; }
      var upward := (right + 1) / 2 % 2 == 0;
      for vert := 0 to size
        invariant PlacedTo(m[..], g, size, cw[..n], p, vert, 0, bit)
        invariant m[size * size..] == g[size * size..]
      {
        for j := 0 to 2
          invariant PlacedTo(m[..], g, size, cw[..n], p, vert, j, bit)
          invariant m[size * size..] == g[size * size..]
        {
          var x := right - j;
          var y := if upward then size - 1 - vert else vert;
          bit := PlaceModule(m, g, size, cw, n, bit, p, vert, j, x, y);
        }
        PlacedNextRow(m[..], g, size, cw[..n], p, vert, bit);
      }
      PlacedNextPair(m[..], g, size, cw[..n], p, bit);
      right := right - 2;
      p := p + 1;
      ColumnStep(size, p);
    }
    PlacedAll(m[..], g, size, cw[..n], bit);
  }

  lemma PlacedNextRow(m: seq<bv8>, g: seq<bv8>, size: nat, cw: seq<bv8>, p: int, vert: int, bit: nat)
    requires PlacedTo(m, g, size, cw, p, vert, 2, bit) && vert < size
    ensures PlacedTo(m, g, size, cw, p, vert + 1, 0, bit)
  {
    hide Placed;
  }

  lemma PlacedNextPair(m: seq<bv8>, g: seq<bv8>, size: nat, cw: seq<bv8>, p: int, bit: nat)
    requires PlacedTo(m, g, size, cw, p, size, 0, bit) && p < Pairs(size)
    ensures PlacedTo(m, g, size, cw, p + 1, 0, 0, bit)
  {
    hide Placed;
  }

  lemma PlacedAll(m: seq<bv8>, g: seq<bv8>, size: nat, cw: seq<bv8>, bit: nat)
    requires PlacedTo(m, g, size, cw, Pairs(size), 0, 0, bit)
    ensures size * size <= |m| == |g| && OddSize(size)
    ensures var order := Order(g, size); Placed(m, g, size, cw, order, Min(8 * |cw|, |order|))
  {
    hide Placed;
  }

  lemma PlacedNone(g: seq<bv8>, size: nat, cw: seq<bv8>)
    requires size * size <= |g| && OddSize(size)
    ensures PlacedTo(g, g, size, cw, 0, 0, 0, 0)
  {}

  // Placed looks only at the first `bit` cells of the order.
  lemma PlacedLonger(m: seq<bv8>, g: seq<bv8>, size: nat, cw: seq<bv8>, order: seq<Cell>, longer: seq<Cell>, bit: nat)
    requires size * size <= |m| == |g| && bit <= |order| && bit <= 8 * |cw|
    requires order <= longer && Placed(m, g, size, cw, order, bit)
    ensures Placed(m, g, size, cw, longer, bit)
  {
    hide CellAt, BitAt, BitCell;
    assert order[..bit] == longer[..bit];
  }

  lemma PlacedNext(m: seq<bv8>, m': seq<bv8>, g: seq<bv8>, size: nat, cw: seq<bv8>, order: seq<Cell>, c: Cell)
    requires size * size <= |m| == |g| == |m'| && |order| < 8 * |cw|
    requires Placed(m, g, size, cw, order, |order|) && c !in order && Free(g, size, c)
    requires forall x, y :: InGrid(size, x, y) ==>
               CellAt(m', size, x, y)
               == if x == c.x && y == c.y then BitCell(BitAt(cw, |order|)) else CellAt(m, size, x, y)
    ensures Placed(m', g, size, cw, order + [c], |order| + 1)
  {
    hide CellAt, BitAt, BitCell;
    var next := order + [c];
    assert next[..|order| + 1] == next && order[..|order|] == order;
    forall k | 0 <= k < |next|
      ensures Free(g, size, next[k]) && CellAt(m', size, next[k].x, next[k].y) == BitCell(BitAt(cw, k))
    {
      if k < |order| { assert next[k] == order[k] && order[k] in order; }
    }
    forall x, y | InGrid(size, x, y) && Cell(x, y) !in next
      ensures CellAt(m', size, x, y) == CellAt(g, size, x, y)
    {
      assert c in next;
      assert Cell(x, y) !in order;
    }
  }

  // The body of the innermost loop.
  method PlaceModule(m: array<bv8>, ghost g: seq<bv8>, size: nat, cw: array<bv8>, n: nat, bit: nat,
                     ghost p: int, ghost vert: int, ghost j: int, x: int, y: int) returns (next: nat)
    requires Fits(m, size) && OddSize(size) && n <= cw.Length && m != cw && |g| == m.Length
    requires Step(size, p, vert, j) && Cell(x, y) == CellOf(size, p, vert, j)
    requires PlacedTo(m[..], g, size, cw[..n], p, vert, j, bit)
    modifies m
    ensures m[size * size..] == old(m[size * size..])
    ensures PlacedTo(m[..], g, size, cw[..n], p, vert, j + 1, next)
  {
    hide CellAt, BitCell, BitSet, Placed;
    ghost var c, order := Cell(x, y), OrderTo(g, size, p, vert, j);
    ZigzagIsInjective(size, p, vert, j);
    OrderToIsExact(g, size, p, vert, j);
    PlacedKeeps(m[..], g, size, cw[..n], order, bit, c);
    PlacedLonger(m[..], g, size, cw[..n], order, OrderTo(g, size, p, vert, j + 1), bit);
    next := bit;
    if !Func(ReadCell(m, size, x, y)) && bit < n * 8 {
      BitByShift(cw[bit / 8], 7 - bit % 8);
      Put(m, size, x, y, (cw[bit / 8] >> (7 - bit % 8)) & 1);
      next := next + 1;
      PlacedNext(old(m[..]), m[..], g, size, cw[..n], order, c);
    }
  }

  lemma PlacedKeeps(m: seq<bv8>, g: seq<bv8>, size: nat, cw: seq<bv8>, order: seq<Cell>, bit: nat, c: Cell)
    requires size * size <= |m| == |g| && bit <= |order| && bit <= 8 * |cw|
    requires Placed(m, g, size, cw, order, bit) && c !in order && InGrid(size, c.x, c.y)
    ensures CellAt(m, size, c.x, c.y) == CellAt(g, size, c.x, c.y)
  {
    assert c !in order[..bit];
    assert Cell(c.x, c.y) == c;
  }

  // ---- room for all the bits ----

  ghost predicate Drawn(g: seq<bv8>, version: nat)
    requires Size(version) * Size(version) <= |g|
  {
    forall x, y :: InGrid(Size(version), x, y) ==> Func(CellAt(g, Size(version), x, y)) == IsFunction(version, x, y)
  }

  // Free cells among the first v steps along column x.
  function CountTo(version: nat, x: int, up: bool, v: nat): nat {
    if v == 0 then 0
    else CountTo(version, x, up, v - 1)
         + if IsFunction(version, x, if up then Size(version) - v else v - 1) then 0 else 1
  }

  datatype Rows = Rows(a1: int, b1: int, a2: int, b2: int, a3: int, b3: int)

  // The free rows of column x, as three ranges [a, b).
  function FreeRows(version: nat, x: int): Rows {
    var size := Size(version);
    var aligned := version >= 2 && size - 9 <= x <= size - 5;
    if x == 6 then Rows(0, 0, 0, 0, 0, 0)
    else if x <= 8 then Rows(9, 9, 9, size - 8, size - 8, size - 8)
    else if x < size - 8 then
      if aligned then Rows(0, 6, 7, size - 9, size - 4, size) else Rows(0, 6, 7, size, size, size)
    else if aligned then Rows(9, 9, 9, size - 9, size - 4, size) else Rows(9, 9, 9, size, size, size)
  }

  function FreeInColumn(version: nat, x: int): int {
    var r := FreeRows(version, x);
    r.b1 - r.a1 + r.b2 - r.a2 + r.b3 - r.a3
  }

  lemma FreeRowsAreExact(version: nat, x: int, y: int)
    requires 1 <= version <= 6 && InGrid(Size(version), x, y)
    ensures var r := FreeRows(version, x);
            && (!IsFunction(version, x, y) <==> r.a1 <= y < r.b1 || r.a2 <= y < r.b2 || r.a3 <= y < r.b3)
            && 0 <= r.a1 <= r.b1 <= r.a2 <= r.b2 <= r.a3 <= r.b3 <= Size(version)
  {}

  function Clamp(v: int, a: int, b: int): int { if v < a then a else if v > b then b else v }

  lemma ClampStep(v: int, a: int, b: int)
    requires a <= b
    ensures Clamp(v + 1, a, b) == Clamp(v, a, b) + if a <= v < b then 1 else 0
  {}

  lemma ClampEnds(s: int, a: int, b: int)
    requires 0 <= a <= b <= s
    ensures Clamp(0, a, b) == a && Clamp(s, a, b) == b
  {}

  lemma {:induction false} ColumnCount(version: nat, x: int, up: bool, v: nat)
    requires 1 <= version <= 6 && 0 <= x < Size(version) && v <= Size(version)
    ensures var r, s := FreeRows(version, x), Size(version);
            CountTo(version, x, up, v) ==
            if up then r.b1 + r.b2 + r.b3 - Clamp(s - v, r.a1, r.b1) - Clamp(s - v, r.a2, r.b2) - Clamp(s - v, r.a3, r.b3)
            else Clamp(v, r.a1, r.b1) + Clamp(v, r.a2, r.b2) + Clamp(v, r.a3, r.b3) - r.a1 - r.a2 - r.a3
  {
    hide IsFunction, FreeRows, Size, Clamp;
    FreeRowsAreExact(version, x, 0);
    var r, s := FreeRows(version, x), Size(version);
    if v == 0 {
      ClampEnds(s, r.a1, r.b1);
      ClampEnds(s, r.a2, r.b2);
      ClampEnds(s, r.a3, r.b3);
    } else {
      var w := if up then s - v else v - 1;
      ClampStep(w, r.a1, r.b1);
      ClampStep(w, r.a2, r.b2);
      ClampStep(w, r.a3, r.b3);
      ColumnCount(version, x, up, v - 1);
      FreeRowsAreExact(version, x, if up then Size(version) - v else v - 1);
    }
  }

  lemma ColumnTotal(version: nat, x: int, up: bool)
    requires 1 <= version <= 6 && 0 <= x < Size(version)
    ensures CountTo(version, x, up, Size(version)) == FreeInColumn(version, x)
  {
    hide IsFunction, CountTo;
    ColumnCount(version, x, up, Size(version));
  }

  lemma FreeIsData(g: seq<bv8>, version: nat, c: Cell)
    requires Size(version) * Size(version) <= |g| && Drawn(g, version) && InGrid(Size(version), c.x, c.y)
    ensures Free(g, Size(version), c) <==> !IsFunction(version, c.x, c.y)
  {
    hide IsFunction, CellAt, Size;
  }

  // The free cells among the two of a row.
  lemma RowOrder(g: seq<bv8>, s: nat, p: int, vert: int)
    requires OddSize(s) && s * s <= |g| && 0 <= p < Pairs(s) && 0 <= vert < s
    ensures InGrid(s, CellOf(s, p, vert, 0).x, CellOf(s, p, vert, 0).y)
    ensures InGrid(s, CellOf(s, p, vert, 1).x, CellOf(s, p, vert, 1).y)
    ensures |OrderTo(g, s, p, vert + 1, 0)| == |OrderTo(g, s, p, vert, 0)|
              + (if Free(g, s, CellOf(s, p, vert, 0)) then 1 else 0) + (if Free(g, s, CellOf(s, p, vert, 1)) then 1 else 0)
  {
    hide Free, CellOf;
    ZigzagIsInjective(s, p, vert, 0);
    ZigzagIsInjective(s, p, vert, 1);
    assert OrderTo(g, s, p, vert + 1, 0) == OrderTo(g, s, p, vert, 2);
    assert |OrderTo(g, s, p, vert, 2)| == |OrderTo(g, s, p, vert, 1)|
      + (if Free(g, s, CellOf(s, p, vert, 1)) then 1 else 0);
  }

  // One row of a column pair.
  lemma RowCount(g: seq<bv8>, version: nat, p: int, vert: int)
    requires 1 <= version <= 6 && Size(version) * Size(version) <= |g| && Drawn(g, version)
    requires 0 <= p < Pairs(Size(version)) && 0 <= vert < Size(version)
    ensures var s, right := Size(version), Right(Size(version), p);
            var y := if Upward(right) then s - 1 - vert else vert;
            |OrderTo(g, s, p, vert + 1, 0)| == |OrderTo(g, s, p, vert, 0)|
              + (if IsFunction(version, right, y) then 0 else 1) + (if IsFunction(version, right - 1, y) then 0 else 1)
  {
    hide Drawn, Free, IsFunction, OrderTo, Upward;
    var s := Size(version);
    RowOrder(g, s, p, vert);
    FreeIsData(g, version, CellOf(s, p, vert, 0));
    FreeIsData(g, version, CellOf(s, p, vert, 1));
  }

  lemma {:induction false} PairCount(g: seq<bv8>, version: nat, p: int, vert: int)
    requires 1 <= version <= 6 && Size(version) * Size(version) <= |g| && Drawn(g, version)
    requires 0 <= p < Pairs(Size(version)) && 0 <= vert <= Size(version)
    ensures var s, right := Size(version), Right(Size(version), p);
            |OrderTo(g, s, p, vert, 0)| == |OrderTo(g, s, p, 0, 0)|
              + CountTo(version, right, Upward(right), vert) + CountTo(version, right - 1, Upward(right), vert)
  {
    hide CellAt, IsFunction, OrderTo;
    if vert > 0 {
      PairCount(g, version, p, vert - 1);
      RowCount(g, version, p, vert - 1);
    }
  }

  // Free cells in the q-th column pair.
  function PairFree(version: nat, q: int): int {
    var s, a := Size(version), if version >= 2 then 5 else 0;
    if q < 2 then 2 * (s - 9)
    else if q < 4 then 2 * (s - 9) - 2 * a
    else if q == 4 then 2 * (s - 1) - a
    else if q < Pairs(s) - 4 then 2 * (s - 1)
    else 2 * (s - 17)
  }

  lemma PairFreeIsColumns(version: nat, q: int)
    requires 1 <= version <= 6 && 0 <= q < Pairs(Size(version))
    ensures var right := Right(Size(version), q);
            PairFree(version, q) == FreeInColumn(version, right) + FreeInColumn(version, right - 1)
  {}

  // Free cells in the first p column pairs.
  function TotalTo(version: nat, p: int): int {
    if p <= 0 then 0 else TotalTo(version, p - 1) + PairFree(version, p - 1)
  }

  // A stretch of pairs that all have the same number of free cells.
  lemma {:induction false} TotalStretch(version: nat, p: int, q: int, each: int, sum: int)
    requires 0 <= p <= q && sum == (q - p) * each && forall k :: p <= k < q ==> PairFree(version, k) == each
    ensures TotalTo(version, q) == TotalTo(version, p) + sum
  {
    hide PairFree;
    if p < q {
      assert sum - each == (q - 1 - p) * each;
      TotalStretch(version, p, q - 1, each, sum - each);
    } else {
      assert (q - p) * each == 0;
    }
  }

  lemma NextPair(g: seq<bv8>, size: nat, p: int)
    requires size * size <= |g| && OddSize(size) && 0 <= p < Pairs(size)
    ensures OrderTo(g, size, p + 1, 0, 0) == OrderTo(g, size, p, size, 0)
  {}

  lemma PairTotal(g: seq<bv8>, version: nat, p: int)
    requires 1 <= version <= 6 && Size(version) * Size(version) <= |g| && Drawn(g, version)
    requires 0 <= p < Pairs(Size(version))
    ensures var s := Size(version);
            |OrderTo(g, s, p + 1, 0, 0)| == |OrderTo(g, s, p, 0, 0)| + PairFree(version, p)
  {
    hide OrderTo, IsFunction, PairFree, CellAt, CountTo, FreeInColumn;
    var s := Size(version);
    var right := Right(s, p);
    NextPair(g, s, p);
    PairCount(g, version, p, s);
    ColumnTotal(version, right, Upward(right));
    ColumnTotal(version, right - 1, Upward(right));
    PairFreeIsColumns(version, p);
  }

  lemma {:induction false} FreeCount(g: seq<bv8>, version: nat, p: int)
    requires 1 <= version <= 6 && Size(version) * Size(version) <= |g| && Drawn(g, version)
    requires 0 <= p <= Pairs(Size(version))
    ensures |OrderTo(g, Size(version), p, 0, 0)| == TotalTo(version, p)
  {
    hide CellAt, IsFunction;
    if p > 0 {
      FreeCount(g, version, p - 1);
      PairTotal(g, version, p - 1);
    }
  }

  function TotalCodewords(version: nat): nat {
    DataCodewords(version) + EccCodewords(version) * Blocks(version)
  }

  // Every version has room for exactly its codewords, and 0 or 7 remainder bits.
  lemma RoomForCodewords(g: seq<bv8>, version: nat)
    requires 1 <= version <= 6 && Size(version) * Size(version) <= |g| && Drawn(g, version)
    ensures |Order(g, Size(version))| == 8 * TotalCodewords(version) + if version == 1 then 0 else 7
  {
    FreeCount(g, version, Pairs(Size(version)));
    hide OrderTo;
    TotalAll(version);
  }

  lemma TotalNone(version: nat)
    ensures TotalTo(version, 0) == 0
  {}

  lemma TotalFormula(version: nat, middle: int)
    requires 1 <= version <= 6 && middle == (Pairs(Size(version)) - 9) * (2 * (Size(version) - 1))
    ensures var s, a := Size(version), if version >= 2 then 5 else 0;
            TotalTo(version, Pairs(s)) == 8 * (s - 9) - 4 * a + 2 * (s - 1) - a + middle + 8 * (s - 17)
  {
    hide TotalTo;
    var s, a := Size(version), if version >= 2 then 5 else 0;
    var n := Pairs(s) - 4;
    TotalNone(version);
    TotalStretch(version, 0, 2, 2 * (s - 9), 4 * (s - 9));
    TotalStretch(version, 2, 4, 2 * (s - 9) - 2 * a, 4 * (s - 9) - 4 * a);
    TotalStretch(version, 4, 5, 2 * (s - 1) - a, 2 * (s - 1) - a);
    TotalStretch(version, 5, n, 2 * (s - 1), middle);
    TotalStretch(version, n, n + 4, 2 * (s - 17), 8 * (s - 17));
  }

  lemma TotalAll(version: nat)
    requires 1 <= version <= 6
    ensures TotalTo(version, Pairs(Size(version))) == 8 * TotalCodewords(version) + if version == 1 then 0 else 7
  {
    hide TotalTo;
    match version {
      case 1 => TotalFormula(1, 40);
      case 2 => TotalFormula(2, 144);
      case 3 => TotalFormula(3, 280);
      case 4 => TotalFormula(4, 448);
      case 5 => TotalFormula(5, 648);
      case 6 => TotalFormula(6, 880);
    }
  }
}
