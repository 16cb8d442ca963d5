/** The 9x9 Sudoku grid: its cells, rows, columns and 3x3 boxes, the
    constraint check used when a digit is placed, and what it means for a
    grid to be a finished solution. A grid is an `array2<int>` of 9 rows and
    9 columns in which 0 marks an empty cell. */
module Grid {
  import opened Sequences

  predicate IsGrid(a: array2<int>) {
    a.Length0 == 9 && a.Length1 == 9
  }

  /** A row or column index. */
  predicate InRange(i: int) {
    0 <= i < 9
  }

  /** A (row, column) coordinate on the grid. */
  predicate IsCell(p: (int, int)) {
    InRange(p.0) && InRange(p.1)
  }

  /** The nine digits a cell may hold once filled. */
  function Digits(): seq<int> {
    [1, 2, 3, 4, 5, 6, 7, 8, 9]
  }

  /** `s` holds nine different digits, each in 1..9: every digit exactly once. */
  ghost predicate IsDigitPermutation(s: seq<int>) {
    |s| == 9 && Distinct(s) && forall i :: 0 <= i < |s| ==> 1 <= s[i] <= 9
  }

  lemma DigitsFacts()
    ensures Distinct(Digits())
    ensures forall x :: x in Digits() <==> 1 <= x <= 9
  {
  }

  /** A reordering of 1..9 holds every digit exactly once. */
  lemma ReorderedDigits(s: seq<int>)
    requires multiset(s) == multiset(Digits())
    ensures IsDigitPermutation(s)
  {
    DigitsFacts();
    PermutationOfDistinct(s, Digits());
    assert |s| == |multiset(s)| == |multiset(Digits())|;
    forall i | 0 <= i < |s|
      ensures 1 <= s[i] <= 9
    {
      assert s[i] in multiset(Digits());
      assert s[i] in Digits();
    }
  }

  /** Conversely, nine different digits from 1..9 are a reordering of 1..9. */
  lemma DigitPermutationReorders(s: seq<int>)
    requires IsDigitPermutation(s)
    ensures multiset(s) == multiset(Digits())
  {
    Pigeonhole(s);
    DigitsFacts();
    SameElementsSameMultiset(s, Digits());
  }

  /** Top row (or left column) of the box that contains row (or column) `i`. */
  function BoxStart(i: int): int {
    (i / 3) * 3
  }

  lemma DivMod3(q: int, m: int)
    requires 0 <= m < 3
    ensures (3 * q + m) / 3 == q && (3 * q + m) % 3 == m
  {
  }

  lemma DivMod9(q: int, m: int)
    requires 0 <= m < 9
    ensures (9 * q + m) / 9 == q && (9 * q + m) % 9 == m
  {
  }

  /** Row `r` lies in the three rows starting at `BoxStart(r)`, and rows in the same band share it. */
  lemma BoxStartFacts(r: int, r2: int)
    requires InRange(r) && InRange(r2)
    ensures BoxStart(r) <= r < BoxStart(r) + 3 && 0 <= BoxStart(r) <= 6
    ensures r / 3 == r2 / 3 <==> BoxStart(r) == BoxStart(r2)
  {
  }

  /** No cell holds 0. */
  ghost predicate Full(a: array2<int>)
    reads a
    requires IsGrid(a)
  {
    forall r, c :: InRange(r) && InRange(c) ==> a[r, c] != 0
  }

  /** Every cell holds 0. */
  ghost predicate AllZero(a: array2<int>)
    reads a
    requires IsGrid(a)
  {
    forall r, c :: InRange(r) && InRange(c) ==> a[r, c] == 0
  }

  /** The coordinates of the empty cells. */
  ghost function Zeros(a: array2<int>): set<(int, int)>
    reads a
    requires IsGrid(a)
  {
    set r, c | 0 <= r < 9 && 0 <= c < 9 && a[r, c] == 0 :: (r, c)
  }

  /** The coordinates of the filled cells. */
  ghost function NonZeroCells(a: array2<int>): set<(int, int)>
    reads a
    requires IsGrid(a)
  {
    set r, c | 0 <= r < 9 && 0 <= c < 9 && a[r, c] != 0 :: (r, c)
  }

  /** `num` occurs somewhere in row `row`. */
  ghost predicate InRow(a: array2<int>, row: int, num: int)
    reads a
    requires IsGrid(a) && InRange(row)
  {
    exists c :: InRange(c) && a[row, c] == num
  }

  /** `num` occurs somewhere in column `col`. */
  ghost predicate InColumn(a: array2<int>, col: int, num: int)
    reads a
    requires IsGrid(a) && InRange(col)
  {
    exists r :: InRange(r) && a[r, col] == num
  }

  /** (r, c) lies in the 3x3 block whose top-left cell is (top, left). */
  predicate InBlock(r: int, c: int, top: int, left: int) {
    top <= r < top + 3 && left <= c < left + 3
  }

  /** `num` occurs somewhere in the 3x3 box whose top-left cell is (top, left). */
  ghost predicate InBox(a: array2<int>, top: int, left: int, num: int)
    reads a
    requires IsGrid(a) && 0 <= top <= 6 && 0 <= left <= 6
  {
    exists r, c :: InBlock(r, c, top, left) && a[r, c] == num
  }

  /** Placing `num` at (row, col) repeats nothing in that cell's row, column or box. */
  ghost predicate ValidMove(a: array2<int>, row: int, col: int, num: int)
    reads a
    requires IsGrid(a) && InRange(row) && InRange(col)
  {
    !InRow(a, row, num) && !InColumn(a, col, num) && !InBox(a, BoxStart(row), BoxStart(col), num)
  }

  /** Two different cells that share a row, a column or a box. */
  predicate Peers(r1: int, c1: int, r2: int, c2: int) {
    (r1 != r2 || c1 != c2) && (r1 == r2 || c1 == c2 || (r1 / 3 == r2 / 3 && c1 / 3 == c2 / 3))
  }

  /** Every cell holds 0..9, and no digit is repeated within a row, a column or a box. */
  ghost predicate Consistent(a: array2<int>)
    reads a
    requires IsGrid(a)
  {
    (forall r, c :: InRange(r) && InRange(c) ==> 0 <= a[r, c] <= 9) &&
    (forall r1, c1, r2, c2 ::
       (InRange(r1) && InRange(c1) && InRange(r2) && InRange(c2) &&
        Peers(r1, c1, r2, c2) && a[r1, c1] != 0) ==> a[r1, c1] != a[r2, c2])
  }

  /** The three kinds of unit: the nine cells of a row, of a column or of a box. */
  datatype UnitKind = Row | Column | Box

  /** The `k`-th cell of unit `u` of the given kind; boxes are numbered and read row-major. */
  function UnitCell(kind: UnitKind, u: int, k: int): (p: (int, int))
    ensures InRange(u) && InRange(k) ==> IsCell(p)
  {
    match kind
    case Row => (u, k)
    case Column => (k, u)
    case Box => (BoxStart(u) + k / 3, 3 * (u % 3) + k % 3)
  }

  /** The nine values of unit `u`, in order. */
  ghost function UnitValues(a: array2<int>, kind: UnitKind, u: int): (s: seq<int>)
    reads a
    requires IsGrid(a) && InRange(u)
  {
    seq(9, k requires 0 <= k < 9 reads a => a[UnitCell(kind, u, k).0, UnitCell(kind, u, k).1])
  }

  /** A finished Sudoku: every row, column and box holds each of 1..9 exactly once. */
  ghost predicate IsSudokuSolution(a: array2<int>)
    reads a
    requires IsGrid(a)
  {
    forall kind, u :: InRange(u) ==> IsDigitPermutation(UnitValues(a, kind, u))
  }

  /** Two different cells of one unit are peers. */
  lemma UnitCellsArePeers(kind: UnitKind, u: int, k1: int, k2: int)
    requires InRange(u) && InRange(k1) && InRange(k2) && k1 != k2
    ensures Peers(UnitCell(kind, u, k1).0, UnitCell(kind, u, k1).1, UnitCell(kind, u, k2).0, UnitCell(kind, u, k2).1)
  {
    if kind == Box {
      DivMod3(u / 3, k1 / 3);
      DivMod3(u / 3, k2 / 3);
      DivMod3(u % 3, k1 % 3);
      DivMod3(u % 3, k2 % 3);
      DivMod3(k1 / 3, k1 % 3);
      DivMod3(k2 / 3, k2 % 3);
    }
  }

  /** Cell (r, c) is cell `3 * (r % 3) + c % 3` of box `BoxStart(r) + c / 3`. */
  lemma BoxPosition(r: int, c: int)
    requires InRange(r) && InRange(c)
    ensures InRange(BoxStart(r) + c / 3) && InRange(3 * (r % 3) + c % 3)
    ensures UnitCell(Box, BoxStart(r) + c / 3, 3 * (r % 3) + c % 3) == (r, c)
  {
    var u, k := BoxStart(r) + c / 3, 3 * (r % 3) + c % 3;
    assert u == 3 * (r / 3) + c / 3;
    DivMod3(r / 3, c / 3);
    DivMod3(r % 3, c % 3);
    assert BoxStart(u) + k / 3 == 3 * (r / 3) + r % 3 == r;
    assert 3 * (u % 3) + k % 3 == 3 * (c / 3) + c % 3 == c;
  }

  /** A full grid without repeated digits is a finished Sudoku. */
  lemma ConsistentFullIsSolution(a: array2<int>)
    requires IsGrid(a) && Full(a) && Consistent(a)
    ensures IsSudokuSolution(a)
  {
    forall kind, u | InRange(u)
      ensures IsDigitPermutation(UnitValues(a, kind, u))
    {
      var s := UnitValues(a, kind, u);
      forall k1, k2 | 0 <= k1 < k2 < |s|
        ensures s[k1] != s[k2]
      {
        UnitCellsArePeers(kind, u, k1, k2);
      }
    }
  }

  /** Entry `k` of a unit's values is the value of its `k`-th cell. */
  lemma UnitEntry(a: array2<int>, kind: UnitKind, u: int, k: int)
    requires IsGrid(a) && InRange(u) && InRange(k)
    ensures UnitValues(a, kind, u)[k] == a[UnitCell(kind, u, k).0, UnitCell(kind, u, k).1]
  {
  }

  /** Cells `k1` and `k2` of a unit of a finished Sudoku hold digits in 1..9,
      different ones when `k1 != k2`. */
  lemma UnitPair(a: array2<int>, kind: UnitKind, u: int, k1: int, k2: int)
    requires IsGrid(a) && IsSudokuSolution(a) && InRange(u) && InRange(k1) && InRange(k2)
    ensures 1 <= a[UnitCell(kind, u, k1).0, UnitCell(kind, u, k1).1] <= 9
    ensures k1 != k2 ==>
      a[UnitCell(kind, u, k1).0, UnitCell(kind, u, k1).1] != a[UnitCell(kind, u, k2).0, UnitCell(kind, u, k2).1]
  {
    var s := UnitValues(a, kind, u);
    assert IsDigitPermutation(s);
    UnitEntry(a, kind, u, k1);
    if k1 != k2 {
      UnitEntry(a, kind, u, k2);
      DistinctAt(s, k1, k2);
    }
  }

  /** Two different cells of one box are two different positions `k1`, `k2` of the same box unit `u`. */
  lemma BoxIndices(r1: int, c1: int, r2: int, c2: int) returns (u: int, k1: int, k2: int)
    requires InRange(r1) && InRange(c1) && InRange(r2) && InRange(c2)
    requires (r1 != r2 || c1 != c2) && r1 / 3 == r2 / 3 && c1 / 3 == c2 / 3
    ensures InRange(u) && InRange(k1) && InRange(k2) && k1 != k2
    ensures UnitCell(Box, u, k1) == (r1, c1) && UnitCell(Box, u, k2) == (r2, c2)
  {
    u, k1, k2 := BoxStart(r1) + c1 / 3, 3 * (r1 % 3) + c1 % 3, 3 * (r2 % 3) + c2 % 3;
    BoxPosition(r1, c1);
    BoxPosition(r2, c2);
  }

  /** Two different cells of one box of a finished Sudoku hold different digits. */
  lemma BoxPair(a: array2<int>, r1: int, c1: int, r2: int, c2: int)
    requires IsGrid(a) && IsSudokuSolution(a)
    requires InRange(r1) && InRange(c1) && InRange(r2) && InRange(c2)
    requires (r1 != r2 || c1 != c2) && r1 / 3 == r2 / 3 && c1 / 3 == c2 / 3
    ensures a[r1, c1] != a[r2, c2]
  {
    var u, k1, k2 := BoxIndices(r1, c1, r2, c2);
    UnitPair(a, Box, u, k1, k2);
  }

  /** In a finished Sudoku every cell holds a digit in 1..9 and two peers hold different digits. */
  lemma SolutionPair(a: array2<int>, r1: int, c1: int, r2: int, c2: int)
    requires IsGrid(a) && IsSudokuSolution(a)
    requires InRange(r1) && InRange(c1) && InRange(r2) && InRange(c2)
    ensures 1 <= a[r1, c1] <= 9
    ensures Peers(r1, c1, r2, c2) ==> a[r1, c1] != a[r2, c2]
  {
    if r1 == r2 || !Peers(r1, c1, r2, c2) {
      var k2 := if r1 == r2 then c2 else c1;
      UnitPair(a, Row, r1, c1, k2);
      assert UnitCell(Row, r1, c1) == (r1, c1) && UnitCell(Row, r1, k2) == (r1, k2);
    } else if c1 == c2 {
      UnitPair(a, Column, c1, r1, r2);
      assert UnitCell(Column, c1, r1) == (r1, c1) && UnitCell(Column, c1, r2) == (r2, c2);
    } else {
      UnitPair(a, Row, r1, c1, c1);
      assert UnitCell(Row, r1, c1) == (r1, c1);
      BoxPair(a, r1, c1, r2, c2);
    }
  }

  /** A finished Sudoku is full and has no repeated digit: the converse of `ConsistentFullIsSolution`. */
  lemma SolutionIsConsistentFull(a: array2<int>)
    requires IsGrid(a) && IsSudokuSolution(a)
    ensures Full(a) && Consistent(a)
  {
    forall r, c | InRange(r) && InRange(c)
      ensures 1 <= a[r, c] <= 9
    {
      SolutionPair(a, r, c, r, c);
    }
    forall r1, c1, r2, c2 |
      InRange(r1) && InRange(c1) && InRange(r2) && InRange(c2) && Peers(r1, c1, r2, c2)
      ensures a[r1, c1] != a[r2, c2]
    {
      SolutionPair(a, r1, c1, r2, c2);
    }
  }

  /** The values of the 3x3 box whose top-left cell is (top, left), row-major. */
  ghost function BoxValues(a: array2<int>, top: int, left: int): seq<int>
    reads a
    requires IsGrid(a) && 0 <= top <= 6 && 0 <= left <= 6
  {
    seq(9, k requires 0 <= k < 9 reads a => a[top + k / 3, left + k % 3])
  }

  /** Cell (r, c) of a block is entry `3 * (r - top) + (c - left)` of its values. */
  lemma BlockPosition(a: array2<int>, top: int, left: int, r: int, c: int)
    requires IsGrid(a) && 0 <= top <= 6 && 0 <= left <= 6 && InBlock(r, c, top, left)
    ensures 0 <= 3 * (r - top) + (c - left) < 9
    ensures BoxValues(a, top, left)[3 * (r - top) + (c - left)] == a[r, c]
  {
    DivMod3(r - top, c - left);
  }

  /** A block holding a permutation of the digits holds nine different digits in 1..9. */
  lemma BlockOfPermutation(a: array2<int>, top: int, left: int)
    requires IsGrid(a) && 0 <= top <= 6 && 0 <= left <= 6
    requires IsDigitPermutation(BoxValues(a, top, left))
    ensures forall r, c :: InBlock(r, c, top, left) ==> 1 <= a[r, c] <= 9
    ensures forall r1, c1, r2, c2 ::
              InBlock(r1, c1, top, left) && InBlock(r2, c2, top, left) && (r1 != r2 || c1 != c2) ==>
              a[r1, c1] != a[r2, c2]
  {
    var s := BoxValues(a, top, left);
    forall r, c | InBlock(r, c, top, left)
      ensures 1 <= a[r, c] <= 9
    {
      BlockPosition(a, top, left, r, c);
    }
    forall r1, c1, r2, c2 |
      InBlock(r1, c1, top, left) && InBlock(r2, c2, top, left) && (r1 != r2 || c1 != c2)
      ensures a[r1, c1] != a[r2, c2]
    {
      BlockPosition(a, top, left, r1, c1);
      BlockPosition(a, top, left, r2, c2);
      DistinctAt(s, 3 * (r1 - top) + (c1 - left), 3 * (r2 - top) + (c2 - left));
    }
  }

  /** Writing the nine entries of `s` row by row into the box at (top, left)
      is exactly what makes `s` the box's values. */
  lemma BoxValuesIffCells(a: array2<int>, top: int, left: int, s: seq<int>)
    requires IsGrid(a) && 0 <= top <= 6 && 0 <= left <= 6 && |s| == 9
    ensures (forall r, c :: InBlock(r, c, top, left) ==> a[r, c] == s[3 * (r - top) + (c - left)])
            <==> BoxValues(a, top, left) == s
  {
    if forall r, c :: InBlock(r, c, top, left) ==> a[r, c] == s[3 * (r - top) + (c - left)] {
      forall k | 0 <= k < 9
        ensures BoxValues(a, top, left)[k] == s[k]
      {
        assert InBlock(top + k / 3, left + k % 3, top, left);
        assert 3 * (k / 3) + k % 3 == k;
      }
    }
    if BoxValues(a, top, left) == s {
      forall r, c | InBlock(r, c, top, left)
        ensures a[r, c] == s[3 * (r - top) + (c - left)]
      {
        BlockPosition(a, top, left, r, c);
      }
    }
  }

  /** A cell off the diagonal blocks, or below the diagonal block at (b, b), is outside that block. */
  lemma OffDiagonalBlock(r: int, c: int, b: int)
    requires (b == 0 || b == 3 || b == 6) && InRange(r) && InRange(c)
    requires r / 3 != c / 3 || r >= b + 3
    ensures !InBlock(r, c, b, b)
  {
  }

  /** The cells of the three diagonal boxes, each box holding a permutation of the digits. */
  ghost predicate DiagonalSeeded(a: array2<int>)
    reads a
    requires IsGrid(a)
  {
    IsDigitPermutation(BoxValues(a, 0, 0)) &&
    IsDigitPermutation(BoxValues(a, 3, 3)) &&
    IsDigitPermutation(BoxValues(a, 6, 6))
  }

  /** Two different cells of one diagonal box hold different digits in 1..9. */
  lemma DiagonalPair(a: array2<int>, r1: int, c1: int, r2: int, c2: int)
    requires IsGrid(a) && DiagonalSeeded(a)
    requires InRange(r1) && InRange(c1) && InRange(r2) && InRange(c2)
    requires r1 / 3 == c1 / 3 == r2 / 3 == c2 / 3
    ensures 1 <= a[r1, c1] <= 9
    ensures r1 != r2 || c1 != c2 ==> a[r1, c1] != a[r2, c2]
  {
    var b := BoxStart(r1);
    assert b == 0 || b == 3 || b == 6;
    BlockOfPermutation(a, b, b);
    assert InBlock(r1, c1, b, b) && InBlock(r2, c2, b, b);
  }

  /** Digits written as permutations into the three diagonal boxes of an otherwise
      empty grid never clash: those boxes share no row and no column. */
  lemma DiagonalSeedConsistent(a: array2<int>)
    requires IsGrid(a) && DiagonalSeeded(a)
    requires forall r, c :: InRange(r) && InRange(c) && r / 3 != c / 3 ==> a[r, c] == 0
    ensures Consistent(a)
  {
    forall r, c | InRange(r) && InRange(c)
      ensures 0 <= a[r, c] <= 9
    {
      if r / 3 == c / 3 {
        DiagonalPair(a, r, c, r, c);
      }
    }
    forall r1, c1, r2, c2 |
      InRange(r1) && InRange(c1) && InRange(r2) && InRange(c2) &&
      Peers(r1, c1, r2, c2) && a[r1, c1] != 0
      ensures a[r1, c1] != a[r2, c2]
    {
      if a[r2, c2] != 0 {
        DiagonalPair(a, r1, c1, r2, c2);
      }
    }
  }

  /** The empty cells and consistency of a grid depend only on its 81 cells:
      a grid whose cells all hold what they held before has the same of both. */
  twostate lemma SameCells(a: array2<int>)
    requires IsGrid(a)
    requires forall r, c :: InRange(r) && InRange(c) ==> a[r, c] == old(a[r, c])
    ensures Zeros(a) == old(Zeros(a))
    ensures Consistent(a) == old(Consistent(a))
  {
  }

  /** A digit that passes `ValidMove` at (row, col) differs from every peer of that cell. */
  lemma ValidMoveAvoidsPeers(a: array2<int>, row: int, col: int, num: int)
    requires IsGrid(a) && InRange(row) && InRange(col) && ValidMove(a, row, col, num)
    ensures forall r, c :: InRange(r) && InRange(c) && Peers(row, col, r, c) ==> a[r, c] != num
  {
    forall r, c | InRange(r) && InRange(c) && Peers(row, col, r, c)
      ensures a[r, c] != num
    {
      if r != row && c != col {
        BoxStartFacts(r, row);
        BoxStartFacts(c, col);
        assert InBlock(r, c, BoxStart(row), BoxStart(col));
      }
    }
  }

  /** The 81 coordinates in row-major order. */
  ghost function CellsInOrder(): seq<(int, int)> {
    seq(81, k => (k / 9, k % 9))
  }

  /** Any reordering of the 81 coordinates has 81 entries, each a cell. */
  lemma ReorderedCells(s: seq<(int, int)>)
    requires multiset(s) == multiset(CellsInOrder())
    ensures |s| == 81 && forall i :: 0 <= i < |s| ==> IsCell(s[i])
  {
    assert |s| == |multiset(s)| == 81;
    forall i | 0 <= i < |s|
      ensures IsCell(s[i])
    {
      assert s[i] in multiset(CellsInOrder());
    }
  }

  /** Any reordering of the 81 coordinates lists every cell once, so its first `k`
      entries are `k` different cells and the rest are the other `81 - k`. */
  lemma ShuffledCells(s: seq<(int, int)>, k: int)
    requires multiset(s) == multiset(CellsInOrder()) && 0 <= k <= 81
    ensures |s| == 81 && Distinct(s)
    ensures forall i :: 0 <= i < |s| ==> IsCell(s[i])
    ensures forall p :: IsCell(p) ==> p in s
    ensures |ValuesBetween(s, 0, k)| == k && |ValuesBetween(s, k, 81)| == 81 - k
    ensures forall p :: IsCell(p) ==> (p in ValuesBetween(s, 0, k) <==> p !in ValuesBetween(s, k, 81))
  {
    var order := CellsInOrder();
    assert Distinct(order) by {
      forall i, j | 0 <= i < j < 81
        ensures order[i] != order[j]
      {
      }
    }
    PermutationOfDistinct(s, order);
    assert |s| == |multiset(s)| == 81;
    forall i | 0 <= i < |s|
      ensures IsCell(s[i])
    {
      assert s[i] in multiset(order);
    }
    forall p | IsCell(p)
      ensures p in s
    {
      assert order[9 * p.0 + p.1] == p;
      assert p in multiset(order);
    }
    DistinctValuesBetweenCard(s, 0, k);
    DistinctValuesBetweenCard(s, k, 81);
    forall p | IsCell(p)
      ensures p in ValuesBetween(s, 0, k) <==> p !in ValuesBetween(s, k, 81)
    {
      var i :| 0 <= i < 81 && s[i] == p;
      if i < k {
        assert p in ValuesBetween(s, 0, k);
      } else {
        assert p in ValuesBetween(s, k, 81);
      }
    }
  }

  /** A grid carved from `solution` by emptying the first `k` cells of a reordering
      of all 81 cells: its filled cells agree with the solution, and when the solution
      is full, exactly those `k` cells are empty and the other `81 - k` are filled. */
  lemma CarvedGrid(board: array2<int>, solution: array2<int>, order: seq<(int, int)>, k: int)
    requires IsGrid(board) && IsGrid(solution)
    requires |order| == 81 && multiset(order) == multiset(CellsInOrder()) && 0 <= k <= 81
    requires forall r, c :: InRange(r) && InRange(c) ==>
               board[r, c] == if (r, c) in ValuesBetween(order, 0, k) then 0 else solution[r, c]
    ensures |ValuesBetween(order, 0, k)| == k && forall p :: p in ValuesBetween(order, 0, k) ==> IsCell(p)
    ensures forall p :: p in NonZeroCells(board) ==> IsCell(p) && board[p.0, p.1] == solution[p.0, p.1]
    ensures Full(solution) ==> Zeros(board) == ValuesBetween(order, 0, k)
    ensures Full(solution) ==> NonZeroCells(board) == ValuesBetween(order, k, 81) && |NonZeroCells(board)| == 81 - k
  {
    ShuffledCells(order, k);
    var cleared, kept := ValuesBetween(order, 0, k), ValuesBetween(order, k, 81);
    if Full(solution) {
      forall p | p in Zeros(board)
        ensures p in cleared
      {
      }
      forall p | p in cleared
        ensures p in Zeros(board)
      {
        var i :| 0 <= i < k && order[i] == p;
      }
      forall p | p in NonZeroCells(board)
        ensures p in kept
      {
      }
      forall p | p in kept
        ensures p in NonZeroCells(board)
      {
        var i :| k <= i < 81 && order[i] == p;
      }
    }
  }
}
