/**
 * The 9x9 grid shared by the solver, the generator and the validator.
 * A grid that the source mutates in place is an `array2<int>`; its value at one
 * moment is a `Board`, a sequence of nine rows of nine integers, 0 meaning empty.
 */
module Grid {
  import opened Config

  type Board = seq<seq<int>>

  /** Nine rows of nine cells. */
  predicate IsBoard(b: Board) {
    |b| == GRID_SIZE && forall r :: 0 <= r < GRID_SIZE ==> |b[r]| == GRID_SIZE
  }

  /** A mutable grid of the right dimensions. */
  predicate IsGrid(g: array2<int>) {
    g.Length0 == GRID_SIZE && g.Length1 == GRID_SIZE
  }

  /** The current contents of a mutable grid (the source's `grid.map(row => [...row])`). */
  function Snap(g: array2<int>): (b: Board)
    requires IsGrid(g)
    reads g
    ensures IsBoard(b)
  {
    RowsFrom(g, 0)
  }

  /** Rows r..8 of a mutable grid. */
  function RowsFrom(g: array2<int>, r: int): (rows: seq<seq<int>>)
    requires IsGrid(g) && 0 <= r <= GRID_SIZE
    reads g
    decreases GRID_SIZE - r
    ensures |rows| == GRID_SIZE - r
    ensures forall i :: 0 <= i < |rows| ==> |rows[i]| == GRID_SIZE
  {
    if r == GRID_SIZE then [] else [CellsFrom(g, r, 0)] + RowsFrom(g, r + 1)
  }

  /** Cells c..8 of row r of a mutable grid. */
  function CellsFrom(g: array2<int>, r: int, c: int): (cells: seq<int>)
    requires IsGrid(g) && 0 <= r < GRID_SIZE && 0 <= c <= GRID_SIZE
    reads g
    decreases GRID_SIZE - c
    ensures |cells| == GRID_SIZE - c
  {
    if c == GRID_SIZE then [] else [g[r, c]] + CellsFrom(g, r, c + 1)
  }

  /** Each cell of the snapshot is the grid's cell. */
  lemma SnapCells(g: array2<int>)
    requires IsGrid(g)
    ensures forall r, c {:trigger Snap(g)[r][c]} :: 0 <= r < GRID_SIZE && 0 <= c < GRID_SIZE ==> Snap(g)[r][c] == g[r, c]
  {
    RowsFromCells(g, 0);
  }

  lemma {:induction false} RowsFromCells(g: array2<int>, r: int)
    requires IsGrid(g) && 0 <= r <= GRID_SIZE
    decreases GRID_SIZE - r
    ensures forall i, c {:trigger RowsFrom(g, r)[i][c]} :: 0 <= i < GRID_SIZE - r && 0 <= c < GRID_SIZE ==> RowsFrom(g, r)[i][c] == g[r + i, c]
  {
    if r < GRID_SIZE {
      RowsFromCells(g, r + 1);
      CellsFromCells(g, r, 0);
    }
  }

  lemma {:induction false} CellsFromCells(g: array2<int>, r: int, c: int)
    requires IsGrid(g) && 0 <= r < GRID_SIZE && 0 <= c <= GRID_SIZE
    decreases GRID_SIZE - c
    ensures forall j {:trigger CellsFrom(g, r, c)[j]} :: 0 <= j < GRID_SIZE - c ==> CellsFrom(g, r, c)[j] == g[r, c + j]
  {
    if c < GRID_SIZE {
      CellsFromCells(g, r, c + 1);
    }
  }

  /** The board with cell (r, c) set to v and every other cell unchanged. */
  function Update(b: Board, r: int, c: int, v: int): (b': Board)
    requires IsBoard(b) && 0 <= r < GRID_SIZE && 0 <= c < GRID_SIZE
    ensures IsBoard(b')
    ensures b'[r][c] == v
    ensures forall r2, c2 {:trigger b'[r2][c2]} :: 0 <= r2 < GRID_SIZE && 0 <= c2 < GRID_SIZE && (r2 != r || c2 != c) ==>
              b'[r2][c2] == b[r2][c2]
  {
    b[r := b[r][c := v]]
  }

  /** Writing back the old value of a cell restores the board. */
  lemma UpdateRestores(b: Board, r: int, c: int, v: int)
    requires IsBoard(b) && 0 <= r < GRID_SIZE && 0 <= c < GRID_SIZE
    ensures Update(Update(b, r, c, v), r, c, b[r][c]) == b
  {
    BoardExt(Update(Update(b, r, c, v), r, c, b[r][c]), b);
  }

  /** Two boards with the same cells are the same board. */
  lemma BoardExt(a: Board, b: Board)
    requires IsBoard(a) && IsBoard(b)
    requires forall r, c :: 0 <= r < GRID_SIZE && 0 <= c < GRID_SIZE ==> a[r][c] == b[r][c]
    ensures a == b
  {
    forall r | 0 <= r < GRID_SIZE
      ensures a[r] == b[r]
    {
      assert forall c :: 0 <= c < GRID_SIZE ==> a[r][c] == b[r][c];
    }
  }

  /** First row (or column) of the 3x3 box that holds row (or column) i. */
  function BoxStart(i: int): (s: int)
    requires 0 <= i < GRID_SIZE
    ensures 0 <= s <= i < s + BOX_SIZE && s % BOX_SIZE == 0
  {
    (i / BOX_SIZE) * BOX_SIZE
  }

  /** Cells (r1, c1) and (r2, c2) share a row, a column or a 3x3 box. */
  predicate SameUnit(r1: int, c1: int, r2: int, c2: int) {
    r1 == r2 || c1 == c2 || (r1 / BOX_SIZE == r2 / BOX_SIZE && c1 / BOX_SIZE == c2 / BOX_SIZE)
  }

  /** The non-zero value at (r, c) occurs again in another cell of its row, column or box. */
  ghost predicate InConflict(b: Board, r: int, c: int)
    requires IsBoard(b) && 0 <= r < GRID_SIZE && 0 <= c < GRID_SIZE
  {
    b[r][c] != 0 &&
    exists r2, c2 :: 0 <= r2 < GRID_SIZE && 0 <= c2 < GRID_SIZE && (r2 != r || c2 != c) &&
      SameUnit(r, c, r2, c2) && b[r2][c2] == b[r][c]
  }

  /** No row, column or box holds the same non-zero value twice (a consistent partial grid). */
  ghost predicate NoConflict(b: Board)
    requires IsBoard(b)
  {
    forall r1, c1, r2, c2 {:trigger SameUnit(r1, c1, r2, c2), b[r1][c1]} ::
      0 <= r1 < GRID_SIZE && 0 <= c1 < GRID_SIZE && 0 <= r2 < GRID_SIZE && 0 <= c2 < GRID_SIZE &&
      (r1 != r2 || c1 != c2) && SameUnit(r1, c1, r2, c2) && b[r1][c1] != 0 ==>
        b[r1][c1] != b[r2][c2]
  }

  /** num occurs in row r, in column c, or in the 3x3 box whose top-left cell is
      (BoxStart(r), BoxStart(c)). */
  ghost predicate OccursInRow(b: Board, r: int, num: int)
    requires IsBoard(b) && 0 <= r < GRID_SIZE
  {
    exists c2 :: 0 <= c2 < GRID_SIZE && b[r][c2] == num
  }

  ghost predicate OccursInColumn(b: Board, c: int, num: int)
    requires IsBoard(b) && 0 <= c < GRID_SIZE
  {
    exists r2 :: 0 <= r2 < GRID_SIZE && b[r2][c] == num
  }

  ghost predicate OccursInBox(b: Board, r: int, c: int, num: int)
    requires IsBoard(b) && 0 <= r < GRID_SIZE && 0 <= c < GRID_SIZE
  {
    exists r2, c2 ::
      BoxStart(r) <= r2 < BoxStart(r) + BOX_SIZE && BoxStart(c) <= c2 < BoxStart(c) + BOX_SIZE &&
      b[r2][c2] == num
  }

  /** Every cell holds a value in lo..hi. */
  ghost predicate ValuesIn(b: Board, lo: int, hi: int)
    requires IsBoard(b)
  {
    forall r, c :: 0 <= r < GRID_SIZE && 0 <= c < GRID_SIZE ==> lo <= b[r][c] <= hi
  }

  /** No cell is empty. */
  ghost predicate NoZero(b: Board)
    requires IsBoard(b)
  {
    forall r, c :: 0 <= r < GRID_SIZE && 0 <= c < GRID_SIZE ==> b[r][c] != 0
  }

  /** s keeps every non-zero cell of p (s is p with some empty cells filled in). */
  ghost predicate Extends(p: Board, s: Board)
    requires IsBoard(p) && IsBoard(s)
  {
    forall r, c :: 0 <= r < GRID_SIZE && 0 <= c < GRID_SIZE && p[r][c] != 0 ==> s[r][c] == p[r][c]
  }

  /** A fully solved grid: every cell in 1..9 and no row, column or box repeats a value. */
  ghost predicate IsSolved(b: Board)
    requires IsBoard(b)
  {
    ValuesIn(b, 1, 9) && NoConflict(b)
  }

  /** s is a valid solution of the puzzle p. */
  ghost predicate IsSolutionOf(p: Board, s: Board)
    requires IsBoard(p)
  {
    IsBoard(s) && IsSolved(s) && Extends(p, s)
  }

  /** The empty cells of a board; filling one of them makes this set strictly smaller. */
  ghost function ZeroCells(b: Board): set<(int, int)>
    requires IsBoard(b)
  {
    set r, c | 0 <= r < GRID_SIZE && 0 <= c < GRID_SIZE && b[r][c] == 0 :: (r, c)
  }

  lemma ZeroCellsShrink(b: Board, r: int, c: int, v: int)
    requires IsBoard(b) && 0 <= r < GRID_SIZE && 0 <= c < GRID_SIZE
    requires b[r][c] == 0 && v != 0
    ensures ZeroCells(Update(b, r, c, v)) < ZeroCells(b)
  {
    var b' := Update(b, r, c, v);
    assert (r, c) in ZeroCells(b) && (r, c) !in ZeroCells(b');
    forall p | p in ZeroCells(b')
      ensures p in ZeroCells(b)
    {
      var r2, c2 :| 0 <= r2 < GRID_SIZE && 0 <= c2 < GRID_SIZE && b'[r2][c2] == 0 && p == (r2, c2);
    }
  }

  /** The values of row r, column c and box k (boxes numbered row-major), each in order. */
  function RowOf(b: Board, r: int): (s: seq<int>)
    requires IsBoard(b) && 0 <= r < GRID_SIZE
    ensures |s| == GRID_SIZE && forall c :: 0 <= c < GRID_SIZE ==> s[c] == b[r][c]
  {
    b[r]
  }

  function ColumnOf(b: Board, c: int): (s: seq<int>)
    requires IsBoard(b) && 0 <= c < GRID_SIZE
    ensures |s| == GRID_SIZE && forall r :: 0 <= r < GRID_SIZE ==> s[r] == b[r][c]
  {
    seq(GRID_SIZE, r requires 0 <= r < GRID_SIZE => b[r][c])
  }

  /** The nine values of the 3x3 block whose top-left cell is (row, col), row by row. */
  function BlockOf(b: Board, row: int, col: int): (s: seq<int>)
    requires IsBoard(b) && 0 <= row && row + BOX_SIZE <= GRID_SIZE && 0 <= col && col + BOX_SIZE <= GRID_SIZE
    ensures |s| == GRID_SIZE
    ensures forall k :: 0 <= k < GRID_SIZE ==> s[k] == b[row + k / BOX_SIZE][col + k % BOX_SIZE]
  {
    seq(GRID_SIZE, k requires 0 <= k < GRID_SIZE => b[row + k / BOX_SIZE][col + k % BOX_SIZE])
  }

  /** The integers lo..hi in ascending order. */
  function Range(lo: int, hi: int): (s: seq<int>)
    decreases hi - lo
    ensures |s| == if lo <= hi then hi - lo + 1 else 0
    ensures forall i :: 0 <= i < |s| ==> s[i] == lo + i
  {
    if lo > hi then [] else [lo] + Range(lo + 1, hi)
  }

  /** The digits 1..9 in ascending order (the source's `[1, 2, ..., 9]`). */
  const DIGITS: seq<int> := Range(1, GRID_SIZE)

  /** s holds each of 1..9 exactly once. */
  ghost predicate IsDigitPermutation(s: seq<int>) {
    multiset(s) == multiset(DIGITS)
  }

  /** A sequence without repeated values. */
  ghost predicate Distinct(s: seq<int>) {
    forall i, j :: 0 <= i < |s| && 0 <= j < |s| && i != j ==> s[i] != s[j]
  }

  lemma {:induction false} DistinctMultiplicity(s: seq<int>, v: int)
    requires Distinct(s)
    ensures multiset(s)[v] == if v in s then 1 else 0
  {
    if s != [] {
      assert s == [s[0]] + s[1..];
      assert Distinct(s[1..]) by {
        forall i, j | 0 <= i < |s[1..]| && 0 <= j < |s[1..]| && i != j
          ensures s[1..][i] != s[1..][j]
        {
          assert s[1..][i] == s[i + 1] && s[1..][j] == s[j + 1];
        }
      }
      DistinctMultiplicity(s[1..], v);
      assert forall k :: 0 <= k < |s[1..]| ==> s[1..][k] == s[k + 1];
      assert s[0] !in s[1..];
      assert v in s <==> v == s[0] || v in s[1..];
    }
  }

  lemma {:induction false} RangeMultiplicity(lo: int, hi: int, v: int)
    decreases hi - lo
    ensures multiset(Range(lo, hi))[v] == if lo <= v <= hi then 1 else 0
  {
    if lo <= hi {
      RangeMultiplicity(lo + 1, hi, v);
      assert multiset(Range(lo, hi)) == multiset{lo} + multiset(Range(lo + 1, hi));
    }
  }

  lemma DigitsMultiplicity(v: int)
    ensures multiset(DIGITS)[v] == if 1 <= v <= 9 then 1 else 0
  {
    RangeMultiplicity(1, GRID_SIZE, v);
  }

  /** Nine distinct values in 1..9 are a permutation of 1..9 (pigeonhole). */
  lemma DistinctDigitsArePermutation(s: seq<int>)
    requires |s| == GRID_SIZE && Distinct(s)
    requires forall i :: 0 <= i < |s| ==> 1 <= s[i] <= 9
    ensures IsDigitPermutation(s)
  {
    var A, B := multiset(s), multiset(DIGITS);
    forall v ensures A[v] <= B[v] {
      DistinctMultiplicity(s, v);
      DigitsMultiplicity(v);
    }
    assert A <= B;
    var D := B - A;
    assert B == A + D;
    assert |D| == 0;
  }

  /** A value at two different positions occurs at least twice in the multiset. */
  lemma RepeatedValueCount(s: seq<int>, i: int, j: int)
    requires 0 <= i < j < |s| && s[i] == s[j]
    ensures multiset(s)[s[i]] >= 2
  {
    assert s == s[..j] + s[j..];
    assert s[..j][i] == s[i] && s[j..][0] == s[j];
    assert s[i] in multiset(s[..j]) && s[j] in multiset(s[j..]);
  }

  /** A permutation of 1..9 has no repeated value and only values in 1..9. */
  lemma PermutationIsDistinctDigits(s: seq<int>)
    requires IsDigitPermutation(s)
    ensures |s| == GRID_SIZE && Distinct(s)
    ensures forall i :: 0 <= i < |s| ==> 1 <= s[i] <= 9
  {
    assert |s| == |multiset(s)| == |multiset(DIGITS)| == 9;
    forall i | 0 <= i < |s|
      ensures 1 <= s[i] <= 9
    {
      assert s[i] in multiset(s);
      DigitsMultiplicity(s[i]);
    }
    forall i, j | 0 <= i < |s| && 0 <= j < |s| && i != j
      ensures s[i] != s[j]
    {
      if s[i] == s[j] {
        if i < j { RepeatedValueCount(s, i, j); } else { RepeatedValueCount(s, j, i); }
        DigitsMultiplicity(s[i]);
      }
    }
  }

  /** Every row, every column and every 3x3 box is a permutation of 1..9. */
  ghost predicate UnitsArePermutations(b: Board)
    requires IsBoard(b)
  {
    (forall r :: 0 <= r < GRID_SIZE ==> IsDigitPermutation(RowOf(b, r))) &&
    (forall c :: 0 <= c < GRID_SIZE ==> IsDigitPermutation(ColumnOf(b, c))) &&
    (forall r, c :: 0 <= r < GRID_SIZE && 0 <= c < GRID_SIZE && r % BOX_SIZE == 0 && c % BOX_SIZE == 0 ==>
       IsDigitPermutation(BlockOf(b, r, c)))
  }

  /** In a solved grid every row, column and box is a permutation of 1..9. */
  lemma SolvedUnitsArePermutations(b: Board)
    requires IsBoard(b) && IsSolved(b)
    ensures UnitsArePermutations(b)
  {
    forall r | 0 <= r < GRID_SIZE
      ensures IsDigitPermutation(RowOf(b, r))
    {
      var s := RowOf(b, r);
      forall i, j | 0 <= i < |s| && 0 <= j < |s| && i != j
        ensures s[i] != s[j]
      {
        assert SameUnit(r, i, r, j) && s[i] == b[r][i];
      }
      DistinctDigitsArePermutation(s);
    }
    forall c | 0 <= c < GRID_SIZE
      ensures IsDigitPermutation(ColumnOf(b, c))
    {
      var s := ColumnOf(b, c);
      forall i, j | 0 <= i < |s| && 0 <= j < |s| && i != j
        ensures s[i] != s[j]
      {
        assert SameUnit(i, c, j, c) && s[i] == b[i][c];
      }
      DistinctDigitsArePermutation(s);
    }
    forall r, c | 0 <= r < GRID_SIZE && 0 <= c < GRID_SIZE && r % BOX_SIZE == 0 && c % BOX_SIZE == 0
      ensures IsDigitPermutation(BlockOf(b, r, c))
    {
      BlockDistinct(b, r, c);
      DistinctDigitsArePermutation(BlockOf(b, r, c));
    }
  }

  /** Offset k of a box, as (k / 3, k % 3), stays inside the box, and distinct offsets are distinct cells. */
  lemma BlockOffset(r: int, k: int)
    requires 0 <= r < GRID_SIZE && r % BOX_SIZE == 0 && 0 <= k < GRID_SIZE
    ensures 0 <= r + k / BOX_SIZE < GRID_SIZE && (r + k / BOX_SIZE) / BOX_SIZE == r / BOX_SIZE
    ensures 0 <= r + k % BOX_SIZE < GRID_SIZE && (r + k % BOX_SIZE) / BOX_SIZE == r / BOX_SIZE
  {
  }

  lemma OffsetsDiffer(i: int, j: int)
    requires 0 <= i < GRID_SIZE && 0 <= j < GRID_SIZE && i != j
    ensures i / BOX_SIZE != j / BOX_SIZE || i % BOX_SIZE != j % BOX_SIZE
  {
  }

  lemma BlockDistinct(b: Board, r: int, c: int)
    requires IsBoard(b) && IsSolved(b)
    requires 0 <= r < GRID_SIZE && 0 <= c < GRID_SIZE && r % BOX_SIZE == 0 && c % BOX_SIZE == 0
    ensures Distinct(BlockOf(b, r, c))
    ensures forall i :: 0 <= i < GRID_SIZE ==> 1 <= BlockOf(b, r, c)[i] <= 9
  {
    var s := BlockOf(b, r, c);
    forall i, j | 0 <= i < |s| && 0 <= j < |s| && i != j
      ensures s[i] != s[j]
    {
      BlockCellsDiffer(b, r, c, i, j);
    }
  }

  /** Two different offsets of a box name two different cells of one unit. */
  lemma BlockCellsDiffer(b: Board, r: int, c: int, i: int, j: int)
    requires IsBoard(b) && IsSolved(b)
    requires 0 <= r < GRID_SIZE && 0 <= c < GRID_SIZE && r % BOX_SIZE == 0 && c % BOX_SIZE == 0
    requires 0 <= i < GRID_SIZE && 0 <= j < GRID_SIZE && i != j
    ensures b[r + i / BOX_SIZE][c + i % BOX_SIZE] != b[r + j / BOX_SIZE][c + j % BOX_SIZE]
  {
    BlockOffset(r, i);
    BlockOffset(r, j);
    BlockOffset(c, i);
    BlockOffset(c, j);
    OffsetsDiffer(i, j);
    var r1, c1, r2, c2 := r + i / BOX_SIZE, c + i % BOX_SIZE, r + j / BOX_SIZE, c + j % BOX_SIZE;
    assert SameUnit(r1, c1, r2, c2) && (r1 != r2 || c1 != c2);
  }

  /** Two rows (or columns) share a box exactly when one lies in the box that BoxStart gives for the other. */
  lemma SameBox(r: int, r2: int)
    requires 0 <= r < GRID_SIZE && 0 <= r2 < GRID_SIZE
    ensures r / BOX_SIZE == r2 / BOX_SIZE <==> BoxStart(r) <= r2 < BoxStart(r) + BOX_SIZE
  {
  }

  /** The row-major position of cell (r, c) is r * 9 + c. */
  lemma CellPosition(r: int, c: int)
    requires 0 <= r < GRID_SIZE && 0 <= c < GRID_SIZE
    ensures 0 <= r * GRID_SIZE + c < GRID_SIZE * GRID_SIZE
    ensures (r * GRID_SIZE + c) / GRID_SIZE == r && (r * GRID_SIZE + c) % GRID_SIZE == c
  {
  }

  /** Offset i * 3 + j of a box is row i, column j of the box. */
  lemma OffsetInBox(k: int)
    requires 0 <= k < GRID_SIZE
    ensures 0 <= k / BOX_SIZE < BOX_SIZE && 0 <= k % BOX_SIZE < BOX_SIZE
  {
  }

  lemma BoxOffset(i: int, j: int)
    requires 0 <= i < BOX_SIZE && 0 <= j < BOX_SIZE
    ensures 0 <= i * BOX_SIZE + j < GRID_SIZE
    ensures (i * BOX_SIZE + j) / BOX_SIZE == i && (i * BOX_SIZE + j) % BOX_SIZE == j
  {
  }
}
