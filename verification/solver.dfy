/**
 * The backtracking solver: the placement test, the scan for the first empty
 * cell, the in-place depth-first search and the uniqueness test.
 *
 * The search is specified by the ghost function `Search`: the full grids the
 * depth-first search reaches, in the order it reaches them (first empty cell in
 * row-major order, candidates 1..9 ascending, each placement checked by IsValid).
 */
module SudokuSolver {
  import opened Config
  import opened Grid

  // ---------------------------------------------------------------------------
  // isValid: the row scan, the column scan and the box scan
  // ---------------------------------------------------------------------------

  /** num occurs in row `row` at some column x..8. */
  function RowHas(b: Board, row: int, num: int, x: int): (found: bool)
    requires IsBoard(b) && 0 <= row < GRID_SIZE && 0 <= x <= GRID_SIZE
    decreases GRID_SIZE - x
    ensures found <==> exists c2 :: x <= c2 < GRID_SIZE && b[row][c2] == num
  {
    if x == GRID_SIZE then false
    else b[row][x] == num || RowHas(b, row, num, x + 1)
  }

  /** num occurs in column `col` at some row y..8. */
  function ColumnHas(b: Board, col: int, num: int, y: int): (found: bool)
    requires IsBoard(b) && 0 <= col < GRID_SIZE && 0 <= y <= GRID_SIZE
    decreases GRID_SIZE - y
    ensures found <==> exists r2 :: y <= r2 < GRID_SIZE && b[r2][col] == num
  {
    if y == GRID_SIZE then false
    else b[y][col] == num || ColumnHas(b, col, num, y + 1)
  }

  /** num occurs in the box with top-left (boxRow, boxCol) at a cell whose
      row-major offset inside the box is k or later. */
  function BoxHas(b: Board, boxRow: int, boxCol: int, num: int, k: int): (found: bool)
    requires IsBoard(b) && 0 <= boxRow && boxRow + BOX_SIZE <= GRID_SIZE
    requires 0 <= boxCol && boxCol + BOX_SIZE <= GRID_SIZE && 0 <= k <= GRID_SIZE
    decreases GRID_SIZE - k
    ensures found <==> exists k2 :: k <= k2 < GRID_SIZE && b[boxRow + k2 / BOX_SIZE][boxCol + k2 % BOX_SIZE] == num
  {
    if k == GRID_SIZE then false
    else b[boxRow + k / BOX_SIZE][boxCol + k % BOX_SIZE] == num || BoxHas(b, boxRow, boxCol, num, k + 1)
  }

  /** Scanning the nine offsets of the box of (r, c) finds num exactly when num occurs in that box. */
  lemma BoxScanCovers(b: Board, r: int, c: int, num: int)
    requires IsBoard(b) && 0 <= r < GRID_SIZE && 0 <= c < GRID_SIZE
    ensures BoxHas(b, BoxStart(r), BoxStart(c), num, 0) <==> OccursInBox(b, r, c, num)
  {
    var br, bc := BoxStart(r), BoxStart(c);
    if OccursInBox(b, r, c, num) {
      var r2, c2 :| br <= r2 < br + BOX_SIZE && bc <= c2 < bc + BOX_SIZE && b[r2][c2] == num;
      BoxScanFinds(b, br, bc, r2, c2);
    }
    if BoxHas(b, br, bc, num, 0) {
      BoxScanStaysInBox(b, r, c, num);
    }
  }

  /** The scan of the box at (br, bc) reaches each of its nine cells. */
  lemma BoxScanFinds(b: Board, br: int, bc: int, r2: int, c2: int)
    requires IsBoard(b) && 0 <= br && br + BOX_SIZE <= GRID_SIZE && 0 <= bc && bc + BOX_SIZE <= GRID_SIZE
    requires br <= r2 < br + BOX_SIZE && bc <= c2 < bc + BOX_SIZE
    ensures BoxHas(b, br, bc, b[r2][c2], 0)
  {
    BoxOffset(r2 - br, c2 - bc);
    var k2 := (r2 - br) * BOX_SIZE + (c2 - bc);
    assert b[br + k2 / BOX_SIZE][bc + k2 % BOX_SIZE] == b[r2][c2];
  }

  lemma BoxScanStaysInBox(b: Board, r: int, c: int, num: int)
    requires IsBoard(b) && 0 <= r < GRID_SIZE && 0 <= c < GRID_SIZE
    requires BoxHas(b, BoxStart(r), BoxStart(c), num, 0)
    ensures OccursInBox(b, r, c, num)
  {
    var br, bc := BoxStart(r), BoxStart(c);
    var k2 :| 0 <= k2 < GRID_SIZE && b[br + k2 / BOX_SIZE][bc + k2 % BOX_SIZE] == num;
    OffsetInBox(k2);
    var r2, c2 := br + k2 / BOX_SIZE, bc + k2 % BOX_SIZE;
    assert br <= r2 < br + BOX_SIZE && bc <= c2 < bc + BOX_SIZE && b[r2][c2] == num;
  }

  /** Placing num at (row, col) is allowed: num is not already in the row, the
      column or the 3x3 box of the cell. */
  function IsValid(b: Board, row: int, col: int, num: int): (ok: bool)
    requires IsBoard(b) && 0 <= row < GRID_SIZE && 0 <= col < GRID_SIZE
    ensures ok <==> !OccursInRow(b, row, num) && !OccursInColumn(b, col, num) && !OccursInBox(b, row, col, num)
  {
    BoxScanCovers(b, row, col, num);
    !RowHas(b, row, num, 0) && !ColumnHas(b, col, num, 0) &&
    !BoxHas(b, BoxStart(row), BoxStart(col), num, 0)
  }

  // ---------------------------------------------------------------------------
  // findEmpty
  // ---------------------------------------------------------------------------

  /** Cell (r2, c2) comes before cell (r, c) in row-major order. */
  predicate Before(r2: int, c2: int, r: int, c: int) {
    r2 < r || (r2 == r && c2 < c)
  }

  /** The first empty cell at row-major position p or later. */
  function FindEmptyFrom(b: Board, p: int): (e: Option<(int, int)>)
    requires IsBoard(b) && 0 <= p <= GRID_SIZE * GRID_SIZE
    decreases GRID_SIZE * GRID_SIZE - p
    ensures e.Some? ==> 0 <= e.value.0 < GRID_SIZE && 0 <= e.value.1 < GRID_SIZE && b[e.value.0][e.value.1] == 0
  {
    if p == GRID_SIZE * GRID_SIZE then None
    else if b[p / GRID_SIZE][p % GRID_SIZE] == 0 then Some((p / GRID_SIZE, p % GRID_SIZE))
    else FindEmptyFrom(b, p + 1)
  }

  /** The first empty cell in row-major order, or None when the grid is full. */
  function FindEmpty(b: Board): (e: Option<(int, int)>)
    requires IsBoard(b)
    ensures e.Some? ==> 0 <= e.value.0 < GRID_SIZE && 0 <= e.value.1 < GRID_SIZE && b[e.value.0][e.value.1] == 0
  {
    FindEmptyFrom(b, 0)
  }

  /** The cell at row-major position q. */
  function At(b: Board, q: int): int
    requires IsBoard(b) && 0 <= q < GRID_SIZE * GRID_SIZE
  {
    b[q / GRID_SIZE][q % GRID_SIZE]
  }

  lemma AtCell(b: Board, r: int, c: int)
    requires IsBoard(b) && 0 <= r < GRID_SIZE && 0 <= c < GRID_SIZE
    ensures 0 <= r * GRID_SIZE + c < GRID_SIZE * GRID_SIZE
    ensures At(b, r * GRID_SIZE + c) == b[r][c]
  {
  }

  lemma {:induction false} FindEmptyFromFirst(b: Board, p: int)
    requires IsBoard(b) && 0 <= p <= GRID_SIZE * GRID_SIZE
    decreases GRID_SIZE * GRID_SIZE - p
    ensures FindEmptyFrom(b, p).None? <==> forall q :: p <= q < GRID_SIZE * GRID_SIZE ==> At(b, q) != 0
    ensures FindEmptyFrom(b, p).Some? ==> var (r, c) := FindEmptyFrom(b, p).value;
              p <= r * GRID_SIZE + c && forall q :: p <= q < r * GRID_SIZE + c ==> At(b, q) != 0
  {
    if p < GRID_SIZE * GRID_SIZE && b[p / GRID_SIZE][p % GRID_SIZE] != 0 {
      FindEmptyFromFirst(b, p + 1);
    } else if p < GRID_SIZE * GRID_SIZE {
      assert At(b, p) == 0;
    }
  }

  /** Row-major order on cells is the order of their positions. */
  lemma BeforeIndex(r2: int, c2: int, r: int, c: int)
    requires 0 <= c2 < GRID_SIZE && 0 <= c < GRID_SIZE
    ensures Before(r2, c2, r, c) <==> r2 * GRID_SIZE + c2 < r * GRID_SIZE + c
  {
    if r2 < r {
      assert r2 * GRID_SIZE + GRID_SIZE <= r * GRID_SIZE;
    } else if r < r2 {
      assert r * GRID_SIZE + GRID_SIZE <= r2 * GRID_SIZE;
    }
  }

  /** findEmpty returns the first cell holding 0 in row-major order, and None only when no cell holds 0. */
  lemma FindEmptyFirst(b: Board)
    requires IsBoard(b)
    ensures FindEmpty(b).None? <==> NoZero(b)
    ensures FindEmpty(b).Some? ==> var (r, c) := FindEmpty(b).value;
              0 <= r < GRID_SIZE && 0 <= c < GRID_SIZE && b[r][c] == 0 &&
              forall r2, c2 :: 0 <= r2 < GRID_SIZE && 0 <= c2 < GRID_SIZE && Before(r2, c2, r, c) ==> b[r2][c2] != 0
  {
    FindEmptyFromFirst(b, 0);
    forall r2, c2 | 0 <= r2 < GRID_SIZE && 0 <= c2 < GRID_SIZE
      ensures 0 <= r2 * GRID_SIZE + c2 < GRID_SIZE * GRID_SIZE && At(b, r2 * GRID_SIZE + c2) == b[r2][c2]
    {
      AtCell(b, r2, c2);
    }
    if NoZero(b) {
      forall q | 0 <= q < GRID_SIZE * GRID_SIZE
        ensures At(b, q) != 0
      {
        assert 0 <= q / GRID_SIZE < GRID_SIZE && 0 <= q % GRID_SIZE < GRID_SIZE;
      }
    }
    if FindEmpty(b).Some? {
      var (r, c) := FindEmpty(b).value;
      forall r2, c2 | 0 <= r2 < GRID_SIZE && 0 <= c2 < GRID_SIZE && Before(r2, c2, r, c)
        ensures b[r2][c2] != 0
      {
        BeforeIndex(r2, c2, r, c);
      }
    }
  }

  // ---------------------------------------------------------------------------
  // hasValidCellsAfterMove
  // ---------------------------------------------------------------------------

  /** Some candidate n..9 may be placed at (r, c). */
  function HasCandidate(b: Board, r: int, c: int, n: int): (found: bool)
    requires IsBoard(b) && 0 <= r < GRID_SIZE && 0 <= c < GRID_SIZE && 1 <= n <= GRID_SIZE + 1
    decreases GRID_SIZE + 1 - n
    ensures found <==> exists v :: n <= v <= GRID_SIZE && IsValid(b, r, c, v)
  {
    if n > GRID_SIZE then false
    else IsValid(b, r, c, n) || HasCandidate(b, r, c, n + 1)
  }

  /** Some value 1..9 may be placed at (r, c). */
  ghost predicate HasValidValue(b: Board, r: int, c: int)
    requires IsBoard(b) && 0 <= r < GRID_SIZE && 0 <= c < GRID_SIZE
  {
    exists v :: 1 <= v <= GRID_SIZE && IsValid(b, r, c, v)
  }

  /** The cell at row-major position q is filled or still admits a value. */
  ghost predicate CellHasValue(b: Board, q: int)
    requires IsBoard(b) && 0 <= q < GRID_SIZE * GRID_SIZE
  {
    At(b, q) != 0 || HasValidValue(b, q / GRID_SIZE, q % GRID_SIZE)
  }

  /** Every empty cell at row-major position p or later has a valid candidate. */
  function ValidCellsFrom(b: Board, p: int): (ok: bool)
    requires IsBoard(b) && 0 <= p <= GRID_SIZE * GRID_SIZE
    decreases GRID_SIZE * GRID_SIZE - p
    ensures ok <==> forall q :: p <= q < GRID_SIZE * GRID_SIZE ==> CellHasValue(b, q)
  {
    if p == GRID_SIZE * GRID_SIZE then true
    else
      var r, c := p / GRID_SIZE, p % GRID_SIZE;
      CandidateAt(b, p);
      (b[r][c] != 0 || HasCandidate(b, r, c, 1)) && ValidCellsFrom(b, p + 1)
  }

  lemma CandidateAt(b: Board, p: int)
    requires IsBoard(b) && 0 <= p < GRID_SIZE * GRID_SIZE
    ensures 0 <= p / GRID_SIZE < GRID_SIZE && 0 <= p % GRID_SIZE < GRID_SIZE
    ensures CellHasValue(b, p) <==> b[p / GRID_SIZE][p % GRID_SIZE] != 0 || HasCandidate(b, p / GRID_SIZE, p % GRID_SIZE, 1)
  {
  }

  /** Checking every position is checking every cell. */
  lemma ValidCellsByPosition(b: Board)
    requires IsBoard(b)
    ensures (forall q :: 0 <= q < GRID_SIZE * GRID_SIZE ==> CellHasValue(b, q)) <==>
            (forall r, c :: 0 <= r < GRID_SIZE && 0 <= c < GRID_SIZE && b[r][c] == 0 ==> HasValidValue(b, r, c))
  {
    forall r, c | 0 <= r < GRID_SIZE && 0 <= c < GRID_SIZE
      ensures 0 <= r * GRID_SIZE + c < GRID_SIZE * GRID_SIZE
      ensures CellHasValue(b, r * GRID_SIZE + c) <==> b[r][c] != 0 || HasValidValue(b, r, c)
    {
      AtCell(b, r, c);
      CellPosition(r, c);
    }
  }

  /** Local consistency: every empty cell still admits at least one value. */
  function HasValidCellsAfterMove(b: Board): (ok: bool)
    requires IsBoard(b)
    ensures ok <==> forall r, c :: 0 <= r < GRID_SIZE && 0 <= c < GRID_SIZE && b[r][c] == 0 ==>
                      exists v :: 1 <= v <= GRID_SIZE && IsValid(b, r, c, v)
  {
    ValidCellsByPosition(b);
    ValidCellsFrom(b, 0)
  }

  // ---------------------------------------------------------------------------
  // The search space of the depth-first search
  // ---------------------------------------------------------------------------

  /** The full grids the depth-first search reaches from b, in the order it reaches them. */
  ghost function Search(b: Board): (found: seq<Board>)
    requires IsBoard(b)
    decreases ZeroCells(b), 1
  {
    var e := FindEmpty(b);
    if e.None? then [b] else SearchFrom(b, e.value.0, e.value.1, 1)
  }

  /** The full grids reached by trying the candidates n..9, in order, at the empty cell (r, c). */
  ghost function SearchFrom(b: Board, r: int, c: int, n: int): (found: seq<Board>)
    requires IsBoard(b) && 0 <= r < GRID_SIZE && 0 <= c < GRID_SIZE && b[r][c] == 0
    requires 1 <= n <= GRID_SIZE + 1
    decreases ZeroCells(b), 0, GRID_SIZE + 1 - n
  {
    if n == GRID_SIZE + 1 then [] else Branch(b, r, c, n) + SearchFrom(b, r, c, n + 1)
  }

  /** The full grids reached after placing v at the empty cell (r, c), if that placement is valid. */
  ghost function Branch(b: Board, r: int, c: int, v: int): (found: seq<Board>)
    requires IsBoard(b) && 0 <= r < GRID_SIZE && 0 <= c < GRID_SIZE && b[r][c] == 0
    requires 1 <= v <= GRID_SIZE
    decreases ZeroCells(b), 0, 0
  {
    if IsValid(b, r, c, v) then
      ZeroCellsShrink(b, r, c, v);
      Search(Update(b, r, c, v))
    else []
  }

  /** The search from b finds the full grids of the branches 1..9 at its first empty cell. */
  lemma SearchUnfold(b: Board, r: int, c: int)
    requires IsBoard(b) && FindEmpty(b) == Some((r, c))
    ensures 0 <= r < GRID_SIZE && 0 <= c < GRID_SIZE && b[r][c] == 0
    ensures Search(b) == SearchFrom(b, r, c, 1)
  {
  }

  /** A valid candidate's branch is the search from the grid with it placed; an invalid one's is empty. */
  lemma BranchUnfold(b: Board, r: int, c: int, v: int)
    requires IsBoard(b) && 0 <= r < GRID_SIZE && 0 <= c < GRID_SIZE && b[r][c] == 0
    requires 1 <= v <= GRID_SIZE
    ensures IsValid(b, r, c, v) ==> Branch(b, r, c, v) == Search(Update(b, r, c, v))
    ensures !IsValid(b, r, c, v) ==> Branch(b, r, c, v) == []
  {
  }

  /** At a full grid the search reaches just that grid. */
  lemma SearchFull(b: Board)
    requires IsBoard(b) && FindEmpty(b).None?
    ensures Search(b) == [b]
  {
  }

  /** Trying the candidates n..9 is trying n and then n+1..9; an invalid candidate's branch is empty. */
  lemma SearchFromNext(b: Board, r: int, c: int, n: int)
    requires IsBoard(b) && 0 <= r < GRID_SIZE && 0 <= c < GRID_SIZE && b[r][c] == 0
    requires 1 <= n <= GRID_SIZE
    ensures SearchFrom(b, r, c, n) == Branch(b, r, c, n) + SearchFrom(b, r, c, n + 1)
    ensures !IsValid(b, r, c, n) ==> Branch(b, r, c, n) == []
  {
  }

  /** A candidate whose branch finds something supplies the first grid found from it on. */
  lemma FoundInBranch(b: Board, r: int, c: int, n: int)
    requires IsBoard(b) && 0 <= r < GRID_SIZE && 0 <= c < GRID_SIZE && b[r][c] == 0
    requires 1 <= n <= GRID_SIZE && Branch(b, r, c, n) != []
    ensures SearchFrom(b, r, c, n) != [] && SearchFrom(b, r, c, n)[0] == Branch(b, r, c, n)[0]
  {
    SearchFromNext(b, r, c, n);
  }

  /** A candidate whose branch finds nothing adds nothing. */
  lemma NothingInBranch(b: Board, r: int, c: int, n: int)
    requires IsBoard(b) && 0 <= r < GRID_SIZE && 0 <= c < GRID_SIZE && b[r][c] == 0
    requires 1 <= n <= GRID_SIZE && Branch(b, r, c, n) == []
    ensures SearchFrom(b, r, c, n) == SearchFrom(b, r, c, n + 1)
  {
    SearchFromNext(b, r, c, n);
  }

  /** After the last candidate nothing more is found. */
  lemma SearchFromEnd(b: Board, r: int, c: int)
    requires IsBoard(b) && 0 <= r < GRID_SIZE && 0 <= c < GRID_SIZE && b[r][c] == 0
    ensures SearchFrom(b, r, c, GRID_SIZE + 1) == []
  {
  }

  // ---------------------------------------------------------------------------
  // solve
  // ---------------------------------------------------------------------------

  /**
   * Fills the grid in place with the first full grid of the depth-first search,
   * or leaves it exactly as it was when the search finds none.
   */
  method Solve(g: array2<int>) returns (solved: bool)
    requires IsGrid(g)
    modifies g
    ensures solved <==> Search(old(Snap(g))) != []
    ensures solved ==> Snap(g) == Search(old(Snap(g)))[0]
    ensures !solved ==> Snap(g) == old(Snap(g))
    decreases ZeroCells(Snap(g)), 2
  {
    ghost var start := Snap(g);
    var empty := FindEmpty(Snap(g));
    if empty.None? {
      SearchFull(start);
      return true;
    }
    var (row, col) := empty.value;
    SearchUnfold(start, row, col);
    solved := SolveCandidates(g, row, col);
  }

  /** The candidate loop of `solve` at the empty cell (row, col): tries 1..9 in
      order and stops at the first candidate whose search succeeds. */
  method SolveCandidates(g: array2<int>, row: int, col: int) returns (solved: bool)
    requires IsGrid(g) && 0 <= row < GRID_SIZE && 0 <= col < GRID_SIZE && Snap(g)[row][col] == 0
    modifies g
    ensures solved <==> SearchFrom(old(Snap(g)), row, col, 1) != []
    ensures solved ==> Snap(g) == SearchFrom(old(Snap(g)), row, col, 1)[0]
    ensures !solved ==> Snap(g) == old(Snap(g))
    decreases ZeroCells(Snap(g)), 1
  {
    ghost var start := Snap(g);
    var num := 1;
    while num <= GRID_SIZE
      invariant 1 <= num <= GRID_SIZE + 1
      invariant Snap(g) == start
      invariant SearchFrom(start, row, col, num) == SearchFrom(start, row, col, 1)
    {
      solved := SolveWith(g, row, col, num);
      if solved {
        FoundInBranch(start, row, col, num);
        return;
      }
      NothingInBranch(start, row, col, num);
      num := num + 1;
    }
    SearchFromEnd(start, row, col);
    solved := false;
  }

  /**
   * One iteration of the candidate loop of `solve`: when num is valid at the
   * empty cell, places it, continues the search, and resets the cell to 0 when
   * that search fails.
   */
  method SolveWith(g: array2<int>, row: int, col: int, num: int) returns (solved: bool)
    requires IsGrid(g) && 0 <= row < GRID_SIZE && 0 <= col < GRID_SIZE && Snap(g)[row][col] == 0
    requires 1 <= num <= GRID_SIZE
    modifies g
    ensures solved <==> Branch(old(Snap(g)), row, col, num) != []
    ensures solved ==> Snap(g) == Branch(old(Snap(g)), row, col, num)[0]
    ensures !solved ==> Snap(g) == old(Snap(g))
    decreases ZeroCells(Snap(g)), 0
  {
    ghost var start := Snap(g);
    if !IsValid(Snap(g), row, col, num) {
      BranchUnfold(start, row, col, num);
      return false;
    }
    ghost var placed := Update(start, row, col, num);
    assert Branch(start, row, col, num) == Search(placed);
    SetCell(g, row, col, num);
    ZeroCellsShrink(start, row, col, num);
    solved := Solve(g);
    if !solved {
      SetCell(g, row, col, 0);
      UpdateRestores(start, row, col, num);
    }
  }

  /** The assignment grid[row][col] = v. */
  method SetCell(g: array2<int>, row: int, col: int, v: int)
    requires IsGrid(g) && 0 <= row < GRID_SIZE && 0 <= col < GRID_SIZE
    modifies g
    ensures Snap(g) == Update(old(Snap(g)), row, col, v)
  {
    ghost var before := Snap(g);
    SnapCells(g);
    g[row, col] := v;
    SnapCells(g);
    BoardExt(Snap(g), Update(before, row, col, v));
  }

  // ---------------------------------------------------------------------------
  // hasUniqueSolution
  // ---------------------------------------------------------------------------

  /** The list of solutions after the full grids of `more` are reached in order:
      a reached grid is appended while at most one solution has been collected,
      so the list grows to at most two. */
  ghost function Capped(found: seq<Board>, more: seq<Board>): (r: seq<Board>)
  {
    if |found| > 1 then found
    else found + more[..if |more| < 2 - |found| then |more| else 2 - |found|]
  }

  /** Collecting from a + b is collecting from a and then from b. */
  lemma CappedAppend(found: seq<Board>, a: seq<Board>, b: seq<Board>)
    ensures Capped(Capped(found, a), b) == Capped(found, a + b)
  {
    if |found| <= 1 {
      var k := 2 - |found|;
      if |a| < k {
        var j := if |b| < k - |a| then |b| else k - |a|;
        assert (a + b)[..|a| + j] == a + b[..j];
      } else {
        assert (a + b)[..k] == a[..k];
      }
    }
  }

  /** Capping keeps the old list as a prefix, adds only reached grids, and stops at two. */
  lemma CappedShape(found: seq<Board>, more: seq<Board>)
    ensures found <= Capped(found, more)
    ensures |found| <= 1 ==> |Capped(found, more)| == if |found| + |more| < 2 then |found| + |more| else 2
    ensures forall k :: |found| <= k < |Capped(found, more)| ==> Capped(found, more)[k] in more
  {
    var r := Capped(found, more);
    forall k | |found| <= k < |r|
      ensures r[k] in more
    {
      assert r[k] == more[k - |found|];
    }
  }

  /** Collecting from no grids changes nothing. */
  lemma CappedNothing(found: seq<Board>)
    ensures Capped(found, []) == found
  {
  }

  /** Once two grids are collected, nothing more is. */
  lemma CappedDone(found: seq<Board>, more: seq<Board>)
    requires |found| > 1
    ensures Capped(found, more) == found
  {
  }

  /** At a full grid the search reaches just that grid, and it is collected when fewer than two have been. */
  lemma CappedLeaf(found: seq<Board>, b: Board)
    requires IsBoard(b) && FindEmpty(b).None? && |found| <= 1
    ensures Capped(found, Search(b)) == found + [b]
  {
    SearchFull(b);
    assert [b][..1] == [b];
  }

  /** A fresh grid with the same cells (the source's `grid.map(row => [...row])`). */
  method CopyGrid(g: array2<int>) returns (copy: array2<int>)
    requires IsGrid(g)
    ensures fresh(copy) && IsGrid(copy) && Snap(copy) == Snap(g)
  {
    copy := new int[GRID_SIZE, GRID_SIZE];
    var i := 0;
    while i < GRID_SIZE
      invariant 0 <= i <= GRID_SIZE
      invariant forall r, c :: 0 <= r < i && 0 <= c < GRID_SIZE ==> copy[r, c] == g[r, c]
    {
      var j := 0;
      while j < GRID_SIZE
        invariant 0 <= j <= GRID_SIZE
        invariant forall r, c :: 0 <= r < i && 0 <= c < GRID_SIZE ==> copy[r, c] == g[r, c]
        invariant forall c :: 0 <= c < j ==> copy[i, c] == g[i, c]
      {
        copy[i, j] := g[i, j];
        j := j + 1;
      }
      i := i + 1;
    }
    SnapCells(copy);
    SnapCells(g);
    BoardExt(Snap(copy), Snap(g));
  }

  /**
   * The inner `findSolutions` of `hasUniqueSolution`: extends the list of
   * collected grids with the full grids the search reaches while fewer than two
   * have been collected, and leaves the grid as it found it.
   */
  method CollectSolutions(g: array2<int>, found: seq<Board>) returns (found': seq<Board>)
    requires IsGrid(g)
    modifies g
    ensures Snap(g) == old(Snap(g))
    ensures found' == Capped(found, Search(old(Snap(g))))
    decreases ZeroCells(Snap(g)), 2
  {
    ghost var start := Snap(g);
    if |found| > 1 {
      CappedDone(found, Search(start));
      return found;
    }
    var empty := FindEmpty(Snap(g));
    if empty.None? {
      CappedLeaf(found, start);
      return found + [Snap(g)];
    }
    var (row, col) := empty.value;
    SearchUnfold(start, row, col);
    found' := CollectCandidates(g, row, col, found);
  }

  /** The candidate loop of `findSolutions` at the empty cell (row, col). */
  method CollectCandidates(g: array2<int>, row: int, col: int, found: seq<Board>) returns (found': seq<Board>)
    requires IsGrid(g) && 0 <= row < GRID_SIZE && 0 <= col < GRID_SIZE && Snap(g)[row][col] == 0
    modifies g
    ensures Snap(g) == old(Snap(g))
    ensures found' == Capped(found, SearchFrom(old(Snap(g)), row, col, 1))
    decreases ZeroCells(Snap(g)), 1
  {
    ghost var start := Snap(g);
    ghost var target := Collected(found, start, row, col, 1);
    found' := found;
    var num := 1;
    while num <= GRID_SIZE
      invariant 1 <= num <= GRID_SIZE + 1
      invariant Snap(g) == start
      invariant Collected(found', start, row, col, num) == target
    {
      found' := CollectWith(g, row, col, num, found');
      num := num + 1;
    }
    CollectedIsCapped(found, start, row, col, 1);
  }

  /** The list after the candidate loop has collected from n..9 in order. */
  ghost function Collected(found: seq<Board>, b: Board, r: int, c: int, n: int): (r': seq<Board>)
    requires IsBoard(b) && 0 <= r < GRID_SIZE && 0 <= c < GRID_SIZE && b[r][c] == 0
    requires 1 <= n <= GRID_SIZE + 1
    decreases GRID_SIZE + 1 - n
  {
    if n == GRID_SIZE + 1 then found else Collected(Capped(found, Branch(b, r, c, n)), b, r, c, n + 1)
  }

  /** Collecting candidate by candidate is collecting from the search below the cell. */
  lemma {:induction false} CollectedIsCapped(found: seq<Board>, b: Board, r: int, c: int, n: int)
    requires IsBoard(b) && 0 <= r < GRID_SIZE && 0 <= c < GRID_SIZE && b[r][c] == 0
    requires 1 <= n <= GRID_SIZE + 1
    decreases GRID_SIZE + 1 - n
    ensures Collected(found, b, r, c, n) == Capped(found, SearchFrom(b, r, c, n))
  {
    if n == GRID_SIZE + 1 {
      CollectEnd(found, b, r, c);
    } else {
      CollectedIsCapped(Capped(found, Branch(b, r, c, n)), b, r, c, n + 1);
      CollectNext(found, b, r, c, n);
    }
  }

  /** Collecting from the candidates n..9 is collecting from n and then from n+1..9. */
  lemma CollectNext(found: seq<Board>, b: Board, r: int, c: int, n: int)
    requires IsBoard(b) && 0 <= r < GRID_SIZE && 0 <= c < GRID_SIZE && b[r][c] == 0
    requires 1 <= n <= GRID_SIZE
    ensures Capped(found, SearchFrom(b, r, c, n)) == Capped(Capped(found, Branch(b, r, c, n)), SearchFrom(b, r, c, n + 1))
  {
    SearchFromNext(b, r, c, n);
    CappedAppend(found, Branch(b, r, c, n), SearchFrom(b, r, c, n + 1));
  }

  /** After the last candidate nothing more is collected. */
  lemma CollectEnd(found: seq<Board>, b: Board, r: int, c: int)
    requires IsBoard(b) && 0 <= r < GRID_SIZE && 0 <= c < GRID_SIZE && b[r][c] == 0
    ensures Capped(found, SearchFrom(b, r, c, GRID_SIZE + 1)) == found
  {
    SearchFromEnd(b, r, c);
    CappedNothing(found);
  }

  /** One iteration of the candidate loop of `findSolutions`: when num is valid
      at the empty cell, place it, recurse, and reset the cell to 0. */
  method CollectWith(g: array2<int>, row: int, col: int, num: int, found: seq<Board>) returns (found': seq<Board>)
    requires IsGrid(g) && 0 <= row < GRID_SIZE && 0 <= col < GRID_SIZE && Snap(g)[row][col] == 0
    requires 1 <= num <= GRID_SIZE
    modifies g
    ensures Snap(g) == old(Snap(g))
    ensures found' == Capped(found, Branch(old(Snap(g)), row, col, num))
    decreases ZeroCells(Snap(g)), 0
  {
    ghost var start := Snap(g);
    if !IsValid(Snap(g), row, col, num) {
      BranchUnfold(start, row, col, num);
      return found;
    }
    assert Branch(start, row, col, num) == Search(Update(start, row, col, num));
    SetCell(g, row, col, num);
    ZeroCellsShrink(start, row, col, num);
    found' := CollectSolutions(g, found);
    SetCell(g, row, col, 0);
    UpdateRestores(start, row, col, num);
  }

  /**
   * Runs the collecting search on a private copy and reports whether exactly one
   * full grid was collected; the caller's grid is not modified.
   */
  method HasUniqueSolution(g: array2<int>) returns (unique: bool)
    requires IsGrid(g)
    ensures unique <==> |Search(Snap(g))| == 1
  {
    var copy := CopyGrid(g);
    var solutions := CollectSolutions(copy, []);
    CappedShape([], Search(Snap(g)));
    unique := |solutions| == 1;
  }
}
