/**
 What a scanner looks for in a symbol, drawn: the patterns that locate it, the
 places and words of the format information, the eight masks, and the way the
 codewords run through the rest (ISO/IEC 18004:2000, 8.7 to 8.9). The drawings
 are compared with every matrix of a message.
 */
module QrPicture {
  import opened QrGrid
  import opened QrPlacement
  import opened QrMask
  import opened QrSymbol

  type Drawing = seq<string>

  // ---- the patterns that locate a symbol ----

  // The finder pattern with the separators at its inner sides.
  const FINDER: Drawing := [
    "#######.",
    "#.....#.",
    "#.###.#.",
    "#.###.#.",
    "#.###.#.",
    "#.....#.",
    "#######.",
    "........"
  ]

  const ALIGNMENT: Drawing := [
    "#####",
    "#...#",
    "#.#.#",
    "#...#",
    "#####"
  ]

  // The matrix shows dark and light as drawn, from (x, y) on in the directions
  // dx and dy.
  predicate Shows(s: seq<bv8>, size: nat, x: int, y: int, dx: int, dy: int, n: nat, d: Drawing) {
    && size * size <= |s| && |d| == n && (forall i :: 0 <= i < n ==> |d[i]| == n)
    && forall i, j :: 0 <= i < n && 0 <= j < n ==>
         InGrid(size, x + dx * j, y + dy * i)
         && CellAt(s, size, x + dx * j, y + dy * i) == if d[i][j] == '#' then 1 else 0
  }

  // Cells of column and row 6 between the finder patterns: dark, light, dark, ...
  predicate Alternates(s: seq<bv8>, size: nat) {
    && size >= 21 && size * size <= |s|
    && CellAt(s, size, 6, 8) == 1 && CellAt(s, size, 8, 6) == 1
    && forall i :: 8 <= i < size - 9 ==>
         CellAt(s, size, 6, i + 1) == 1 - CellAt(s, size, 6, i) && CellAt(s, size, i + 1, 6) == 1 - CellAt(s, size, i, 6)
  }

  lemma FinderRow(i: int)
    requires 0 <= i < 8
    ensures |FINDER| == 8
    ensures FINDER[i] == if i == 0 || i == 6 then "#######." else if i == 1 || i == 5 then "#.....#."
                         else if i == 7 then "........" else "#.###.#."
  {
    if i == 0 {} else if i == 1 {} else if i == 2 {} else if i == 3 {} else if i == 4 {} else if i == 5 {} else if i == 6 {}
  }

  lemma RowsRead(j: int)
    requires 0 <= j < 8
    ensures "#######."[j] == '#' <==> j < 7
    ensures "#.....#."[j] == '#' <==> j == 0 || j == 6
    ensures "#.###.#."[j] == '#' <==> j == 0 || j == 2 || j == 3 || j == 4 || j == 6
    ensures "........"[j] != '#'
  {
    if j == 0 {} else if j == 1 {} else if j == 2 {} else if j == 3 {} else if j == 4 {} else if j == 5 {} else if j == 6 {}
  }

  lemma FinderDrawn(i: int, j: int)
    requires 0 <= i < 8 && 0 <= j < 8
    ensures |FINDER| == 8 && |FINDER[i]| == 8
    ensures (FINDER[i][j] == '#') == (Distance(j, i, 3, 3) !in {2, 4})
  {
    FinderRow(i);
    RowsRead(j);
    assert Distance(j, i, 3, 3) in {2, 4} <==>
           i == 7 || j == 7 || ((i == 1 || i == 5) && 1 <= j <= 5) || ((j == 1 || j == 5) && 1 <= i <= 5);
    hide *;
  }

  lemma AlignmentDrawn(i: int, j: int)
    requires 0 <= i < 5 && 0 <= j < 5
    ensures |ALIGNMENT| == 5 && |ALIGNMENT[i]| == 5
    ensures (ALIGNMENT[i][j] == '#') == (Distance(j, i, 2, 2) != 1)
  {
    if j == 0 {} else if j == 1 {} else if j == 2 {} else if j == 3 {}
  }

  lemma FinderShape()
    ensures |FINDER| == 8 && forall i :: 0 <= i < 8 ==> |FINDER[i]| == 8
  {
    forall i | 0 <= i < 8 ensures |FINDER[i]| == 8 {
      FinderRow(i);
    }
  }

  lemma AlignmentShape()
    ensures |ALIGNMENT| == 5 && forall i :: 0 <= i < 5 ==> |ALIGNMENT[i]| == 5
  {}

  lemma FinderCell(version: nat, mask: nat, x: int, y: int, i: int, j: int)
    requires version >= 1 && 0 <= i < 8 && 0 <= j < 8
    requires (x == j && y == i) || (x == Size(version) - 1 - j && y == i) || (x == j && y == Size(version) - 1 - i)
    ensures InGrid(Size(version), x, y) && IsFunction(version, x, y)
    ensures FunctionDark(version, mask, x, y) == (FINDER[i][j] == '#')
  {
    hide FormatDark, FormatIndex;
    FinderDrawn(i, j);
    assert FinderDark(Size(version), x, y) == (Distance(j, i, 3, 3) !in {2, 4});
  }

  lemma AlignmentCell(version: nat, mask: nat, i: int, j: int)
    requires version >= 2 && 0 <= i < 5 && 0 <= j < 5
    ensures var x, y := Size(version) - 9 + j, Size(version) - 9 + i;
            && InGrid(Size(version), x, y) && IsFunction(version, x, y)
            && FunctionDark(version, mask, x, y) == (ALIGNMENT[i][j] == '#')
  {
    hide FormatDark, FormatIndex, FinderDark;
    AlignmentDrawn(i, j);
  }

  lemma CornerDrawn(s: seq<bv8>, version: nat, mask: nat, cw: seq<bv8>, dx: int, dy: int)
    requires version >= 1 && IsMatrix(s, version, mask, cw) && (dx == 1 || dx == -1) && (dy == 1 || dy == -1) && dx + dy >= 0
    ensures var size := Size(version);
            Shows(s, size, if dx == 1 then 0 else size - 1, if dy == 1 then 0 else size - 1, dx, dy, 8, FINDER)
  {
    hide FunctionDark, IsFunction, CellAt, DataCells, MaskBit;
    FinderShape();
    var size := Size(version);
    var x0, y0 := if dx == 1 then 0 else size - 1, if dy == 1 then 0 else size - 1;
    forall i, j | 0 <= i < 8 && 0 <= j < 8
      ensures InGrid(size, x0 + dx * j, y0 + dy * i)
      ensures CellAt(s, size, x0 + dx * j, y0 + dy * i) == if FINDER[i][j] == '#' then 1 else 0
    {
      FinderCell(version, mask, x0 + dx * j, y0 + dy * i, i, j);
      MatrixCell(s, version, mask, cw, x0 + dx * j, y0 + dy * i);
    }
  }

  lemma MatrixCell(s: seq<bv8>, version: nat, mask: nat, cw: seq<bv8>, x: int, y: int)
    requires IsMatrix(s, version, mask, cw) && InGrid(Size(version), x, y) && IsFunction(version, x, y)
    ensures CellAt(s, Size(version), x, y) == if FunctionDark(version, mask, x, y) then 1 else 0
  {
    hide FunctionDark, IsFunction, CellAt, DataCells, MaskBit;
  }

  lemma AlignmentAt(s: seq<bv8>, version: nat, mask: nat, cw: seq<bv8>)
    requires version >= 2 && IsMatrix(s, version, mask, cw)
    ensures Shows(s, Size(version), Size(version) - 9, Size(version) - 9, 1, 1, 5, ALIGNMENT)
  {
    hide FunctionDark, IsFunction, CellAt, IsMatrix;
    AlignmentShape();
    MatrixSize(s, version, mask, cw);
    var size := Size(version);
    forall i, j | 0 <= i < 5 && 0 <= j < 5
      ensures InGrid(size, size - 9 + 1 * j, size - 9 + 1 * i)
      ensures CellAt(s, size, size - 9 + 1 * j, size - 9 + 1 * i) == if ALIGNMENT[i][j] == '#' then 1 else 0
    {
      AlignmentCell(version, mask, i, j);
      MatrixCell(s, version, mask, cw, size - 9 + j, size - 9 + i);
    }
  }

  // The finder pattern in three corners, turned to face inwards, and from version
  // 2 on the alignment pattern near the fourth.
  predicate Located(s: seq<bv8>, size: nat) {
    && Shows(s, size, 0, 0, 1, 1, 8, FINDER)
    && Shows(s, size, size - 1, 0, -1, 1, 8, FINDER)
    && Shows(s, size, 0, size - 1, 1, -1, 8, FINDER)
    && (size >= 25 ==> Shows(s, size, size - 9, size - 9, 1, 1, 5, ALIGNMENT))
  }

  // Every matrix has them.
  lemma PatternsDrawn(s: seq<bv8>, version: nat, mask: nat, cw: seq<bv8>)
    requires version >= 1 && IsMatrix(s, version, mask, cw)
    ensures Located(s, Size(version))
  {
    hide IsMatrix, Shows;
    CornerDrawn(s, version, mask, cw, 1, 1);
    CornerDrawn(s, version, mask, cw, -1, 1);
    CornerDrawn(s, version, mask, cw, 1, -1);
    if version >= 2 {
      AlignmentAt(s, version, mask, cw);
    }
  }

  lemma TimingCell(version: nat, mask: nat, i: int)
    requires version >= 1 && 8 <= i <= Size(version) - 9
    ensures IsFunction(version, 6, i) && IsFunction(version, i, 6)
    ensures FunctionDark(version, mask, 6, i) == FunctionDark(version, mask, i, 6) == (i % 2 == 0)
  {
    hide FormatDark, FormatIndex, FinderDark;
  }

  // The timing patterns: column and row 6 alternate between the finder patterns.
  lemma TimingDrawn(s: seq<bv8>, version: nat, mask: nat, cw: seq<bv8>)
    requires version >= 1 && IsMatrix(s, version, mask, cw)
    ensures Alternates(s, Size(version))
  {
    hide FunctionDark, IsFunction, CellAt, IsMatrix;
    MatrixSize(s, version, mask, cw);
    forall i | 8 <= i <= Size(version) - 9
      ensures CellAt(s, Size(version), 6, i) == CellAt(s, Size(version), i, 6) == if i % 2 == 0 then 1 else 0
    {
      TimingCell(version, mask, i);
      MatrixCell(s, version, mask, cw, 6, i);
      MatrixCell(s, version, mask, cw, i, 6);
    }
  }

  lemma MatrixSize(s: seq<bv8>, version: nat, mask: nat, cw: seq<bv8>)
    requires IsMatrix(s, version, mask, cw)
    ensures |s| == Size(version) * Size(version)
  {
    hide FunctionDark, IsFunction, CellAt, DataCells, MaskBit;
  }

  // ---- the format information ----

  // The words of level L for masks 0 to 7, most significant bit first (annex C).
  const FORMATS: seq<string> := [
    "111011111000100", "111001011110011", "111110110101010", "111100010011101",
    "110011000101111", "110001100011000", "110110001000001", "110100101110110"
  ]

  // Where the bits stand, least significant first: around the upper left finder
  // pattern, and again beside the two others.
  const UPPER_LEFT: seq<Cell> := [
    Cell(8, 0), Cell(8, 1), Cell(8, 2), Cell(8, 3), Cell(8, 4), Cell(8, 5), Cell(8, 7), Cell(8, 8),
    Cell(7, 8), Cell(5, 8), Cell(4, 8), Cell(3, 8), Cell(2, 8), Cell(1, 8), Cell(0, 8)
  ]

  function SecondCopy(size: nat, i: nat): Cell { if i < 8 then Cell(size - 1 - i, 8) else Cell(8, size - 15 + i) }

  predicate BitShown(s: seq<bv8>, size: nat, c: Cell, bit: char) {
    size * size <= |s| && InGrid(size, c.x, c.y) && CellAt(s, size, c.x, c.y) == if bit == '1' then 1 else 0
  }

  // Both copies of the word of the mask are there, and the module that is always
  // dark.
  ghost predicate FormatShown(s: seq<bv8>, size: nat, mask: nat) {
    && size >= 21 && |s| == size * size && mask < |FORMATS|
    && |FORMATS[mask]| == |UPPER_LEFT| == 15
    && (forall i: nat :: i < 15 ==> BitShown(s, size, UPPER_LEFT[i], FORMATS[mask][14 - i])
                                    && BitShown(s, size, SecondCopy(size, i), FORMATS[mask][14 - i]))
    && CellAt(s, size, 8, size - 8) == 1
  }

  lemma LowWords(mask: nat, i: nat)
    requires mask < 4 && i < 15
    ensures |FORMATS| == 8 && |FORMATS[mask]| == 15
    ensures (FORMATS[mask][14 - i] == '1') == FormatBit(mask, i)
  {
    match mask {
      case 0 => case 1 => case 2 => case 3 =>
    }
  }

  lemma HighWords(mask: nat, i: nat)
    requires 4 <= mask < 8 && i < 15
    ensures |FORMATS| == 8 && |FORMATS[mask]| == 15
    ensures (FORMATS[mask][14 - i] == '1') == FormatBit(mask, i)
  {
    match mask {
      case 4 => case 5 => case 6 => case 7 =>
    }
  }

  lemma WordDrawn(mask: nat, i: nat)
    requires mask < 8 && i < 15
    ensures |FORMATS| == 8 && |FORMATS[mask]| == 15
    ensures (FORMATS[mask][14 - i] == '1') == FormatBit(mask, i)
  {
    hide FormatBit;
    if mask < 4 {
      LowWords(mask, i);
    } else {
      HighWords(mask, i);
    }
  }

  lemma PlaceDrawn(size: nat, i: nat)
    requires size >= 21 && i < 15
    ensures |UPPER_LEFT| == 15
    ensures InGrid(size, UPPER_LEFT[i].x, UPPER_LEFT[i].y) && InGrid(size, SecondCopy(size, i).x, SecondCopy(size, i).y)
    ensures FormatIndex(size, UPPER_LEFT[i].x, UPPER_LEFT[i].y) == i
    ensures FormatIndex(size, SecondCopy(size, i).x, SecondCopy(size, i).y) == i
  {}

  lemma FormatCellDrawn(s: seq<bv8>, version: nat, mask: nat, cw: seq<bv8>, i: nat, x: int, y: int)
    requires version >= 1 && mask < 8 && IsMatrix(s, version, mask, cw) && |s| == Size(version) * Size(version) && i <= 15
    requires (i == 15 && x == 8 && y == Size(version) - 8)
             || (i < 15 && |UPPER_LEFT| == 15 && (Cell(x, y) == UPPER_LEFT[i] || Cell(x, y) == SecondCopy(Size(version), i)))
    ensures InGrid(Size(version), x, y) && CellAt(s, Size(version), x, y) == if FormatDark(mask, i) then 1 else 0
  {
    hide CellAt, IsMatrix, FormatBit, FinderDark;
    if i < 15 {
      PlaceDrawn(Size(version), i);
    }
    MatrixCell(s, version, mask, cw, x, y);
  }

  // Every matrix names its mask.
  lemma FormatDrawn(s: seq<bv8>, version: nat, mask: nat, cw: seq<bv8>)
    requires version >= 1 && mask < 8 && IsMatrix(s, version, mask, cw)
    ensures FormatShown(s, Size(version), mask)
  {
    hide FunctionDark, IsFunction, CellAt, IsMatrix, FormatBit, FormatIndex;
    MatrixSize(s, version, mask, cw);
    WordDrawn(mask, 0);
    PlaceDrawn(Size(version), 0);
    forall i: nat | i < 15
      ensures BitShown(s, Size(version), UPPER_LEFT[i], FORMATS[mask][14 - i])
      ensures BitShown(s, Size(version), SecondCopy(Size(version), i), FORMATS[mask][14 - i])
    {
      WordDrawn(mask, i);
      FormatCellDrawn(s, version, mask, cw, i, UPPER_LEFT[i].x, UPPER_LEFT[i].y);
      FormatCellDrawn(s, version, mask, cw, i, SecondCopy(Size(version), i).x, SecondCopy(Size(version), i).y);
    }
    FormatCellDrawn(s, version, mask, cw, 15, 8, Size(version) - 8);
  }

  // ---- the masks ----

  // One period of each mask; a drawn module is inverted.
  const MASK0: Drawing := ["#.", ".#"]
  const MASK1: Drawing := ["#", "."]
  const MASK2: Drawing := ["#.."]
  const MASK3: Drawing := ["#..", "..#", ".#."]
  const MASK4: Drawing := ["###...", "###...", "...###", "...###"]
  const MASK5: Drawing := ["######", "#.....", "#..#..", "#.#.#.", "#..#..", "#....."]
  const MASK6: Drawing := ["######", "###...", "##.##.", "#.#.#.", "#.##.#", "#...##"]
  const MASK7: Drawing := ["#.#.#.", "...###", "#...##", ".#.#.#", "###...", ".###.."]

  function MaskDrawing(mask: nat): Drawing {
    match mask
    case 0 => MASK0
    case 1 => MASK1
    case 2 => MASK2
    case 3 => MASK3
    case 4 => MASK4
    case 5 => MASK5
    case 6 => MASK6
    case _ => MASK7
  }

  function Wide(mask: nat): nat { if mask == 1 then 1 else if mask == 0 then 2 else if mask <= 3 then 3 else 6 }
  function High(mask: nat): nat { if mask == 2 then 1 else if mask <= 1 then 2 else if mask == 3 then 3 else if mask == 4 then 4 else 6 }

  lemma Product2(x: nat, y: nat)
    ensures (x * y) % 2 == if x % 2 == 0 then 0 else y % 2
  {
    Times2(x, x / 2, x % 2, y);
    Rest2(x / 2 * y, x * y, y, x % 2);
  }

  lemma Times2(x: nat, a: nat, r: nat, y: nat)
    requires r < 2 && x == 2 * a + r
    ensures x * y == 2 * (a * y) + if r == 0 then 0 else y
  {
    if r == 0 {
      assert x * y == (2 * a) * y;
    } else {
      assert x * y == (2 * a + 1) * y;
    }
  }

  lemma Rest2(t: nat, n: nat, y: nat, r: nat)
    requires r < 2 && n == 2 * t + if r == 0 then 0 else y
    ensures n % 2 == if r == 0 then 0 else y % 2
  {}

  lemma Product3(x: nat, y: nat)
    ensures (x * y) % 3 == if x % 3 == 0 then 0 else if x % 3 == 1 then y % 3 else (2 * y) % 3
  {
    Times3(x, x / 3, x % 3, y);
    Rest3(x / 3 * y, x * y, y, x % 3);
  }

  lemma Times3(x: nat, a: nat, r: nat, y: nat)
    requires r < 3 && x == 3 * a + r
    ensures x * y == 3 * (a * y) + if r == 0 then 0 else if r == 1 then y else 2 * y
  {
    if r == 0 {
      assert x * y == (3 * a) * y;
    } else if r == 1 {
      assert x * y == (3 * a + 1) * y;
    } else {
      assert x * y == (3 * a + 2) * y;
    }
  }

  lemma Rest3(t: nat, n: nat, y: nat, r: nat)
    requires r < 3 && n == 3 * t + if r == 0 then 0 else if r == 1 then y else 2 * y
    ensures n % 3 == if r == 0 then 0 else if r == 1 then y % 3 else (2 * y) % 3
  {}

  // What masks 5 to 7 look at, in terms of the remainders by 6.
  lemma ProductRest(x: nat, y: nat)
    ensures (x * y) % 2 == ((x % 6) * (y % 6)) % 2 && (x * y) % 3 == ((x % 6) * (y % 6)) % 3
  {
    Product2(x, y);
    Product3(x, y);
    Product2(x % 6, y % 6);
    Product3(x % 6, y % 6);
    SixRest(x);
    SixRest(y);
  }

  lemma SixRest(n: nat)
    ensures n % 6 % 2 == n % 2 && n % 6 % 3 == n % 3 && (2 * (n % 6)) % 3 == (2 * n) % 3
  {
    var q, r := n / 6, n % 6;
    Whole2(n, 3 * q, r);
    Whole3(n, 2 * q, r);
    Whole3(2 * n, 4 * q, 2 * r);
  }

  lemma Whole2(n: nat, t: nat, r: nat)
    requires n == 2 * t + r
    ensures n % 2 == r % 2
  {}

  lemma Whole3(n: nat, t: nat, r: nat)
    requires n == 3 * t + r
    ensures n % 3 == r % 3
  {}

  lemma SumRest(x: nat, y: nat)
    ensures (x + y) % 2 == (x % 6 + y % 6) % 2
  {
    Whole2(x + y, 3 * (x / 6) + 3 * (y / 6), x % 6 + y % 6);
  }

  lemma SumRepeats(x: nat, y: nat)
    ensures MaskBit(0, x, y) == MaskBit(0, x % 2, y % 2) && MaskBit(3, x, y) == MaskBit(3, x % 3, y % 3)
  {
    Whole2(x + y, x / 2 + y / 2, x % 2 + y % 2);
    Whole3(x + y, x / 3 + y / 3, x % 3 + y % 3);
  }

  lemma LineRepeats(x: nat, y: nat)
    ensures MaskBit(1, x, y) == MaskBit(1, 0, y % 2) && MaskBit(2, x, y) == MaskBit(2, x % 3, 0)
  {}

  lemma FourthRepeats(x: nat, y: nat)
    ensures MaskBit(4, x, y) == MaskBit(4, x % 6, y % 4)
  {
    assert x / 3 == 2 * (x / 6) + x % 6 / 3;
    assert y / 2 == 2 * (y / 4) + y % 4 / 2;
    Whole2(x / 3 + y / 2, x / 6 + y / 4, x % 6 / 3 + y % 4 / 2);
  }

  lemma MaskRepeats6(mask: nat, x: nat, y: nat)
    requires 5 <= mask < 8
    ensures MaskBit(mask, x, y) == MaskBit(mask, x % 6, y % 6)
  {
    hide MaskBit, ByRests;
    ProductRest(x, y);
    SumRest(x, y);
    SameRests(mask, x, y, x * y, (x % 6) * (y % 6), (x + y) % 2);
  }

  lemma SameRests(mask: nat, x: nat, y: nat, p: nat, q: nat, s2: nat)
    requires 5 <= mask < 8 && p == x * y && q == (x % 6) * (y % 6) && p % 2 == q % 2 && p % 3 == q % 3
    requires s2 == (x + y) % 2 == (x % 6 + y % 6) % 2
    ensures MaskBit(mask, x, y) == MaskBit(mask, x % 6, y % 6)
  {
    hide MaskBit, ByRests;
    MaskRests(mask, x, y, p, s2);
    MaskRests(mask, x % 6, y % 6, q, s2);
  }

  predicate ByRests(mask: nat, p2: nat, p3: nat, s2: nat) {
    if mask == 5 then p2 + p3 == 0 else if mask == 6 then (p2 + p3) % 2 == 0 else (s2 + p3) % 2 == 0
  }

  lemma MaskRests(mask: nat, x: nat, y: nat, p: nat, s2: nat)
    requires 5 <= mask < 8 && p == x * y && s2 == (x + y) % 2
    ensures MaskBit(mask, x, y) == ByRests(mask, p % 2, p % 3, s2)
  {}

  lemma MaskTile(mask: nat, x: nat, y: nat)
    requires mask < 5 && x < Wide(mask) && y < High(mask)
    ensures var d := MaskDrawing(mask); |d| == High(mask) && |d[y]| == Wide(mask) && MaskBit(mask, x, y) == (d[y][x] == '#')
  {
    match mask {
      case 0 => case 1 => case 2 => case 3 =>
      case 4 => if x < 3 {} else {}
    }
  }

  lemma MaskTile5(x: nat, y: nat)
    requires x < 6 && y < 6
    ensures |MASK5| == 6 && |MASK5[y]| == 6 && MaskBit(5, x, y) == (MASK5[y][x] == '#')
  {
    hide MaskBit;
    MaskRests(5, x, y, x * y, (x + y) % 2);
    match y {
      case 0 => case 1 => case 2 => case 3 => case 4 => case 5 =>
    }
  }

  lemma MaskTile6(x: nat, y: nat)
    requires x < 6 && y < 6
    ensures |MASK6| == 6 && |MASK6[y]| == 6 && MaskBit(6, x, y) == (MASK6[y][x] == '#')
  {
    hide MaskBit;
    MaskRests(6, x, y, x * y, (x + y) % 2);
    match y {
      case 0 => case 1 => case 2 => case 3 => case 4 => case 5 =>
    }
  }

  lemma MaskTile7(x: nat, y: nat)
    requires x < 6 && y < 6
    ensures |MASK7| == 6 && |MASK7[y]| == 6 && MaskBit(7, x, y) == (MASK7[y][x] == '#')
  {
    hide MaskBit;
    MaskRests(7, x, y, x * y, (x + y) % 2);
    match y {
      case 0 => case 1 => case 2 => case 3 => case 4 => case 5 =>
    }
  }

  // Each mask is its drawing, repeated in both directions.
  lemma MaskDrawn(mask: nat, x: nat, y: nat)
    requires mask < 8
    ensures var d := MaskDrawing(mask);
            && |d| == High(mask) && |d[y % High(mask)]| == Wide(mask)
            && MaskBit(mask, x, y) == (d[y % High(mask)][x % Wide(mask)] == '#')
  {
    hide MaskBit;
    match mask {
      case 0 =>
        SumRepeats(x, y);
        MaskTile(0, x % 2, y % 2);
      case 1 =>
        LineRepeats(x, y);
        MaskTile(1, 0, y % 2);
        assert x % 1 == 0;
      case 2 =>
        LineRepeats(x, y);
        MaskTile(2, x % 3, 0);
        assert y % 1 == 0;
      case 3 =>
        SumRepeats(x, y);
        MaskTile(3, x % 3, y % 3);
      case 4 =>
        FourthRepeats(x, y);
        MaskTile(4, x % 6, y % 4);
      case 5 =>
        MaskRepeats6(5, x, y);
        MaskTile5(x % 6, y % 6);
      case 6 =>
        MaskRepeats6(6, x, y);
        MaskTile6(x % 6, y % 6);
      case 7 =>
        MaskRepeats6(7, x, y);
        MaskTile7(x % 6, y % 6);
    }
  }

  // ---- the way through the data modules ----

  // The number of a two-column strip, counted from the right edge; column 6 is in none.
  function Strip(size: nat, x: int): int { if x > 6 then (size - 1 - x) / 2 else (size - 2 - x) / 2 }

  // The order of 8.7.3: strip by strip from the right, upwards in the first and
  // turning at each edge, the right module of a strip's row before the left one.
  predicate Earlier(size: nat, c: Cell, d: Cell) {
    var s, t := Strip(size, c.x), Strip(size, d.x);
    s < t || (s == t && (if c.y == d.y then c.x > d.x else if s % 2 == 0 then c.y > d.y else c.y < d.y))
  }

  predicate InReadingOrder(size: nat, cells: seq<Cell>) {
    forall i, k :: 0 <= i < k < |cells| ==> Earlier(size, cells[i], cells[k])
  }

  lemma StripIsPair(size: nat, x: int)
    requires OddSize(size) && 0 <= x < size && x != 6
    ensures Strip(size, x) == PairOf(size, x)
  {}

  lemma FirstIsUpward(version: nat, p: int)
    requires 0 <= p < Pairs(Size(version))
    ensures Upward(Right(Size(version), p)) <==> p % 2 == 0
  {
    var right := Right(Size(version), p);
    assert right + 1 == 4 * version + (if right < 6 then 16 else 17) - 2 * p;
    hide Size, Right, Pairs;
    HalfOf(right + 1, 2 * version + 8 - p);
    hide Upward;
  }

  lemma HalfOf(n: int, k: int)
    requires n == 2 * k || n == 2 * k + 1
    ensures n / 2 == k
  {}

  lemma RightComesFirst(size: nat, x: int, x': int)
    requires OddSize(size) && 0 <= x < size && 0 <= x' < size && x != 6 && x' != 6
    requires PairOf(size, x) == PairOf(size, x') && SideOf(size, x) < SideOf(size, x')
    ensures x > x'
  {}

  lemma NextIsLater(version: nat, c: Cell, p: int, vert: int, j: int)
    requires var size := Size(version);
             OddSize(size) && InGrid(size, c.x, c.y) && c.x != 6 && Step(size, p, vert, j) && Before(size, c, p, vert, j)
    ensures Earlier(Size(version), c, CellOf(Size(version), p, vert, j))
  {
    hide Size, Strip, PairOf, SideOf, Upward, Right, CellOf, OddSize;
    var size := Size(version);
    var d := CellOf(size, p, vert, j);
    ZigzagIsInjective(size, p, vert, j);
    StripIsPair(size, c.x);
    StripIsPair(size, d.x);
    FirstIsUpward(version, p);
    if PairOf(size, c.x) == p && SideOf(size, c.x) < j {
      RightComesFirst(size, c.x, d.x);
    }
  }

  lemma {:induction false} OrderToReads(g: seq<bv8>, version: nat, p: int, vert: int, j: int)
    requires var size := Size(version); size * size <= |g| && OddSize(size) && Position(size, p, vert, j)
    ensures InReadingOrder(Size(version), OrderTo(g, Size(version), p, vert, j))
    decreases p, vert, j
  {
    hide CellAt, CellOf, Free, Earlier, Before, Size;
    var size := Size(version);
    if j > 0 {
      OrderToReads(g, version, p, vert, j - 1);
      OrderToIsExact(g, size, p, vert, j - 1);
      var front := OrderTo(g, size, p, vert, j - 1);
      forall i | 0 <= i < |front| ensures Earlier(size, front[i], CellOf(size, p, vert, j - 1)) {
        FreeInGrid(g, size, front[i]);
        NextIsLater(version, front[i], p, vert, j - 1);
      }
    } else if vert > 0 {
      OrderToReads(g, version, p, vert - 1, 2);
    } else if p > 0 {
      OrderToReads(g, version, p - 1, size, 0);
    }
  }

  lemma FreeInGrid(g: seq<bv8>, size: nat, c: Cell)
    requires size * size <= |g| && Free(g, size, c)
    ensures InGrid(size, c.x, c.y)
  {}

  // Codeword bits stand in that order in exactly the modules that no pattern takes.
  lemma DataCellsRead(version: nat)
    requires 1 <= version <= 6
    ensures InReadingOrder(Size(version), DataCells(version))
    ensures forall x, y :: Cell(x, y) in DataCells(version) <==> InGrid(Size(version), x, y) && !IsFunction(version, x, y)
    ensures |DataCells(version)| == 8 * TotalCodewords(version) + if version == 1 then 0 else 7
  {
    hide CellAt, OrderTo, FunctionMap, IsFunction, InReadingOrder, Size;
    SizeIsOdd(version);
    FunctionMapDrawn(version);
    OrderToReads(FunctionMap(version), version, Pairs(Size(version)), 0, 0);
    OrderIsExact(FunctionMap(version), Size(version));
    RoomForCodewords(FunctionMap(version), version);
    forall x, y ensures Cell(x, y) in DataCells(version) <==> InGrid(Size(version), x, y) && !IsFunction(version, x, y) {
      if InGrid(Size(version), x, y) && !IsFunction(version, x, y) {
        FreeInOrder(version, x, y);
      }
      assert Cell(x, y) in DataCells(version) ==> Free(FunctionMap(version), Size(version), Cell(x, y));
    }
  }

  // ---- the whole picture ----

  // What a scanner sees of a symbol before it reads a codeword.
  ghost predicate Pictured(s: seq<bv8>, size: nat, mask: nat) {
    Located(s, size) && Alternates(s, size) && FormatShown(s, size, mask)
  }

  lemma SymbolPictured(s: seq<bv8>, text: seq<bv8>, version: nat, mask: nat)
    requires version >= 1 && mask < 8 && IsSymbol(s, text, version, mask)
    ensures Pictured(s, Size(version), mask)
  {
    hide IsMatrix, IsMessage, Located, Alternates, FormatShown;
    var cw :| IsMessage(cw, text, version) && IsMatrix(s, version, mask, cw);
    PatternsDrawn(s, version, mask, cw);
    TimingDrawn(s, version, mask, cw);
    FormatDrawn(s, version, mask, cw);
  }
}
