/**
 * The puzzle generator: a Fisher-Yates shuffle, the filling of one 3x3 box
 * with a shuffled 1..9, and generate, which seeds the three diagonal boxes,
 * solves the grid, and then empties random cells while the puzzle keeps a
 * unique solution.
 */
module Generator {
  import opened Config
  import opened Grid
  import opened SudokuSolver
  import opened SearchTheory
  import opened Draws

  /** shuffleArray: for i from the last index down to 1, swaps element i with
      element j = floor(random * (i + 1)); the array stays a permutation of itself. */
  method ShuffleArray(a: array<int>, rng: Random)
    modifies a, rng
    ensures multiset(a[..]) == multiset(old(a[..]))
    ensures rng.count == old(rng.count) + if a.Length > 0 then a.Length - 1 else 0
  {
    var i := a.Length - 1;
    while i > 0
      invariant -1 <= i < a.Length && (a.Length > 0 ==> 0 <= i)
      invariant multiset(a[..]) == multiset(old(a[..]))
      invariant rng.count == old(rng.count) + (a.Length - 1 - if i < 0 then a.Length - 1 else i)
    {
      var x := rng.Next();
      var j := Scale(x, i + 1);
      a[i], a[j] := a[j], a[i];
      i := i - 1;
    }
  }

  /** Cell (r, c) lies in the 3x3 block whose top-left cell is (row, col). */
  predicate InBox(r: int, c: int, row: int, col: int) {
    row <= r < row + BOX_SIZE && col <= c < col + BOX_SIZE
  }

  /** Cell (r, c) is among the cells of that block written before offset (i, j), row by row. */
  predicate Written(r: int, c: int, row: int, col: int, i: int, j: int) {
    InBox(r, c, row, col) && (r - row < i || (r - row == i && c - col < j))
  }

  /** fillBox: writes a shuffled 1..9 into the 3x3 block whose top-left cell is
      (row, col), row by row, and leaves every other cell as it was. */
  method FillBox(grid: array2<int>, row: int, col: int, rng: Random)
    requires IsGrid(grid) && 0 <= row <= GRID_SIZE - BOX_SIZE && 0 <= col <= GRID_SIZE - BOX_SIZE
    modifies grid, rng
    ensures IsDigitPermutation(BlockOf(Snap(grid), row, col))
    ensures forall r, c ::
              0 <= r < GRID_SIZE && 0 <= c < GRID_SIZE && !InBox(r, c, row, col) ==> grid[r, c] == old(grid[r, c])
  {
    var nums := new int[GRID_SIZE](k => k + 1);
    assert nums[..] == DIGITS;
    ShuffleArray(nums, rng);
    assert IsDigitPermutation(nums[..]);
    WriteBox(grid, row, col, nums);
  }

  /** The nested loop of fillBox: cell (row + i, col + j) receives nums[i * 3 + j]. */
  method WriteBox(grid: array2<int>, row: int, col: int, nums: array<int>)
    requires IsGrid(grid) && 0 <= row <= GRID_SIZE - BOX_SIZE && 0 <= col <= GRID_SIZE - BOX_SIZE
    requires nums.Length == GRID_SIZE
    modifies grid
    ensures BlockOf(Snap(grid), row, col) == nums[..]
    ensures forall r, c ::
              0 <= r < GRID_SIZE && 0 <= c < GRID_SIZE && !InBox(r, c, row, col) ==> grid[r, c] == old(grid[r, c])
  {
    var i := 0;
    while i < BOX_SIZE
      invariant 0 <= i <= BOX_SIZE
      invariant forall k :: 0 <= k < i * BOX_SIZE ==> grid[row + k / BOX_SIZE, col + k % BOX_SIZE] == nums[k]
      invariant forall r, c ::
                  0 <= r < GRID_SIZE && 0 <= c < GRID_SIZE && !Written(r, c, row, col, i, 0) ==> grid[r, c] == old(grid[r, c])
    {
      var j := 0;
      while j < BOX_SIZE
        invariant 0 <= j <= BOX_SIZE
        invariant forall k :: 0 <= k < i * BOX_SIZE + j ==> grid[row + k / BOX_SIZE, col + k % BOX_SIZE] == nums[k]
        invariant forall r, c ::
                    0 <= r < GRID_SIZE && 0 <= c < GRID_SIZE && !Written(r, c, row, col, i, j) ==> grid[r, c] == old(grid[r, c])
      {
        BoxOffset(i, j);
        forall k | 0 <= k < i * BOX_SIZE + j
          ensures k / BOX_SIZE != i || k % BOX_SIZE != j
        {
          OffsetsDiffer(k, i * BOX_SIZE + j);
        }
        grid[row + i, col + j] := nums[i * BOX_SIZE + j];
        j := j + 1;
      }
      i := i + 1;
    }
    SnapCells(grid);
    ghost var block := BlockOf(Snap(grid), row, col);
    forall k | 0 <= k < GRID_SIZE
      ensures block[k] == nums[k]
    {
      OffsetInBox(k);
    }
    assert block == nums[..];
  }

  // ---------------------------------------------------------------------------
  // The diagonal seed
  // ---------------------------------------------------------------------------

  /** The grid after the seeding loop has filled the diagonal boxes in rows
      0..i-1: each of them holds a permutation of 1..9 and every other cell is empty. */
  ghost predicate SeededBefore(b: Board, i: int)
    requires IsBoard(b)
  {
    DiagonalFilled(b, i) && OthersEmpty(b, i)
  }

  /** The diagonal boxes above row i hold permutations of 1..9. */
  ghost predicate DiagonalFilled(b: Board, i: int)
    requires IsBoard(b)
  {
    forall d :: 0 <= d <= GRID_SIZE - BOX_SIZE && d < i && d % BOX_SIZE == 0 ==> IsDigitPermutation(BlockOf(b, d, d))
  }

  /** Cells off the diagonal boxes, and cells from row i on, are empty. */
  ghost predicate OthersEmpty(b: Board, i: int)
    requires IsBoard(b)
  {
    forall r, c :: 0 <= r < GRID_SIZE && 0 <= c < GRID_SIZE && (r / BOX_SIZE != c / BOX_SIZE || r >= i) ==> b[r][c] == 0
  }

  /** The grid after the whole seeding loop. */
  ghost predicate DiagonalSeed(b: Board)
    requires IsBoard(b)
  {
    SeededBefore(b, GRID_SIZE)
  }

  /** Filling the diagonal box at (i, i) extends the seed by one box. */
  lemma SeedStep(before: Board, after: Board, i: int)
    requires IsBoard(before) && IsBoard(after) && 0 <= i < GRID_SIZE && i % BOX_SIZE == 0
    requires SeededBefore(before, i) && IsDigitPermutation(BlockOf(after, i, i))
    requires forall r, c :: 0 <= r < GRID_SIZE && 0 <= c < GRID_SIZE && !InBox(r, c, i, i) ==> after[r][c] == before[r][c]
    ensures SeededBefore(after, i + BOX_SIZE)
  {
    forall d | 0 <= d <= GRID_SIZE - BOX_SIZE && d < i + BOX_SIZE && d % BOX_SIZE == 0
      ensures IsDigitPermutation(BlockOf(after, d, d))
    {
      if d < i {
        BlockKept(before, after, d, i);
      } else {
        SameMultiple(d, i);
      }
    }
    EmptyKept(before, after, i);
  }

  /** The cells that must stay empty after box (i, i) is written are outside that box. */
  lemma EmptyKept(before: Board, after: Board, i: int)
    requires IsBoard(before) && IsBoard(after) && 0 <= i < GRID_SIZE && i % BOX_SIZE == 0
    requires OthersEmpty(before, i)
    requires forall r, c :: 0 <= r < GRID_SIZE && 0 <= c < GRID_SIZE && !InBox(r, c, i, i) ==> after[r][c] == before[r][c]
    ensures OthersEmpty(after, i + BOX_SIZE)
  {
    forall r, c | 0 <= r < GRID_SIZE && 0 <= c < GRID_SIZE && InBox(r, c, i, i)
      ensures r / BOX_SIZE == c / BOX_SIZE && r < i + BOX_SIZE
    {
      InDiagonalBox(r, c, i);
    }
  }

  /** A diagonal box left alone by the write into box (i, i) keeps its contents. */
  lemma BlockKept(before: Board, after: Board, d: int, i: int)
    requires IsBoard(before) && IsBoard(after) && 0 <= d < i < GRID_SIZE && d % BOX_SIZE == 0 && i % BOX_SIZE == 0
    requires forall r, c :: 0 <= r < GRID_SIZE && 0 <= c < GRID_SIZE && !InBox(r, c, i, i) ==> after[r][c] == before[r][c]
    ensures BlockOf(after, d, d) == BlockOf(before, d, d)
  {
    forall k | 0 <= k < GRID_SIZE
      ensures BlockOf(after, d, d)[k] == BlockOf(before, d, d)[k]
    {
      assert !InBox(d + k / BOX_SIZE, d + k % BOX_SIZE, i, i);
    }
  }

  lemma SameMultiple(d: int, i: int)
    requires d % BOX_SIZE == 0 && i % BOX_SIZE == 0 && i <= d < i + BOX_SIZE
    ensures d == i
  {
  }

  lemma InDiagonalBox(r: int, c: int, i: int)
    requires i % BOX_SIZE == 0 && InBox(r, c, i, i)
    ensures r / BOX_SIZE == i / BOX_SIZE && c / BOX_SIZE == i / BOX_SIZE
  {
  }

  /** Cell (r, c) of the box whose top-left cell is (d, e) is entry (r - d) * 3 + (c - e) of BlockOf. */
  lemma BlockEntry(b: Board, d: int, e: int, r: int, c: int) returns (k: int)
    requires IsBoard(b) && 0 <= r < GRID_SIZE && 0 <= c < GRID_SIZE && d == BoxStart(r) && e == BoxStart(c)
    ensures 0 <= k < GRID_SIZE && k == (r - d) * BOX_SIZE + (c - e) && BlockOf(b, d, e)[k] == b[r][c]
  {
    k := (r - d) * BOX_SIZE + (c - e);
    BoxOffset(r - d, c - e);
  }

  /** A cell of a diagonal box holds a digit. */
  lemma DiagonalCell(b: Board, r: int, c: int) returns (d: int, k: int)
    requires IsBoard(b) && DiagonalSeed(b)
    requires 0 <= r < GRID_SIZE && 0 <= c < GRID_SIZE && r / BOX_SIZE == c / BOX_SIZE
    ensures d == BoxStart(r) && d == BoxStart(c) && 0 <= k < GRID_SIZE && k == (r - d) * BOX_SIZE + (c - d)
    ensures BlockOf(b, d, d)[k] == b[r][c] && 1 <= b[r][c] <= GRID_SIZE
  {
    d := BoxStart(r);
    k := BlockEntry(b, d, d, r, c);
    PermutationIsDistinctDigits(BlockOf(b, d, d));
  }

  /** Two cells of diagonal boxes that share a row, a column or a box share a box. */
  lemma SameDiagonalBox(r1: int, c1: int, r2: int, c2: int)
    requires 0 <= r1 < GRID_SIZE && 0 <= c1 < GRID_SIZE && 0 <= r2 < GRID_SIZE && 0 <= c2 < GRID_SIZE
    requires r1 / BOX_SIZE == c1 / BOX_SIZE && r2 / BOX_SIZE == c2 / BOX_SIZE && SameUnit(r1, c1, r2, c2)
    ensures BoxStart(r1) == BoxStart(r2)
  {
  }

  /** The diagonal boxes share no row and no column, so the seed has no conflict. */
  lemma DiagonalSeedConsistent(b: Board)
    requires IsBoard(b) && DiagonalSeed(b)
    ensures NoConflict(b) && ValuesIn(b, 0, GRID_SIZE)
  {
    DiagonalSeedValues(b);
    DiagonalSeedNoConflict(b);
  }

  lemma DiagonalSeedValues(b: Board)
    requires IsBoard(b) && DiagonalSeed(b)
    ensures ValuesIn(b, 0, GRID_SIZE)
  {
    forall r, c | 0 <= r < GRID_SIZE && 0 <= c < GRID_SIZE
      ensures 0 <= b[r][c] <= GRID_SIZE
    {
      if r / BOX_SIZE == c / BOX_SIZE {
        var _, _ := DiagonalCell(b, r, c);
      }
    }
  }

  lemma DiagonalSeedNoConflict(b: Board)
    requires IsBoard(b) && DiagonalSeed(b)
    ensures NoConflict(b)
  {
    forall r1, c1, r2, c2 |
      0 <= r1 < GRID_SIZE && 0 <= c1 < GRID_SIZE && 0 <= r2 < GRID_SIZE && 0 <= c2 < GRID_SIZE &&
      (r1 != r2 || c1 != c2) && SameUnit(r1, c1, r2, c2) && b[r1][c1] != 0
      ensures b[r1][c1] != b[r2][c2]
    {
      DiagonalPair(b, r1, c1, r2, c2);
    }
  }

  /** Two distinct filled cells of the seed that share a unit hold different digits. */
  lemma DiagonalPair(b: Board, r1: int, c1: int, r2: int, c2: int)
    requires IsBoard(b) && DiagonalSeed(b)
    requires 0 <= r1 < GRID_SIZE && 0 <= c1 < GRID_SIZE && 0 <= r2 < GRID_SIZE && 0 <= c2 < GRID_SIZE
    requires (r1 != r2 || c1 != c2) && SameUnit(r1, c1, r2, c2) && b[r1][c1] != 0
    ensures b[r1][c1] != b[r2][c2]
  {
    assert r1 / BOX_SIZE == c1 / BOX_SIZE;
    var d, k1 := DiagonalCell(b, r1, c1);
    if r2 / BOX_SIZE == c2 / BOX_SIZE {
      var d2, k2 := DiagonalCell(b, r2, c2);
      SameDiagonalBox(r1, c1, r2, c2);
      BoxOffset(r1 - d, c1 - d);
      BoxOffset(r2 - d, c2 - d);
      assert k1 != k2;
      PermutationIsDistinctDigits(BlockOf(b, d, d));
    }
  }

  /** The seeding loop of generate: a fresh all-zero grid whose boxes at (0, 0),
      (3, 3) and (6, 6) are filled by fillBox. */
  method SeedDiagonalBoxes(rng: Random) returns (grid: array2<int>)
    modifies rng
    ensures fresh(grid) && IsGrid(grid) && DiagonalSeed(Snap(grid))
  {
    grid := new int[GRID_SIZE, GRID_SIZE]((_, _) => 0);
    SnapCells(grid);
    var i := 0;
    while i < GRID_SIZE
      invariant 0 <= i <= GRID_SIZE && i % BOX_SIZE == 0
      invariant SeededBefore(Snap(grid), i)
    {
      ghost var before := Snap(grid);
      SnapCells(grid);
      FillBox(grid, i, i, rng);
      SnapCells(grid);
      SeedStep(before, Snap(grid), i);
      i := i + BOX_SIZE;
    }
  }

  // ---------------------------------------------------------------------------
  // Removing cells
  // ---------------------------------------------------------------------------

  /** Row-major positions of the cells of a board that are not empty. */
  ghost function FilledCells(b: Board): set<int>
    requires IsBoard(b)
  {
    set p | 0 <= p < GRID_SIZE * GRID_SIZE && At(b, p) != 0
  }

  /** The list `positions` after `positions.splice(i, 1)`. */
  function Without(s: seq<int>, i: int): (t: seq<int>)
    requires 0 <= i < |s|
    ensures |t| == |s| - 1
    ensures forall k :: 0 <= k < |t| ==> t[k] == if k < i then s[k] else s[k + 1]
  {
    s[..i] + s[i + 1..]
  }

  /** Removing one entry keeps a list of distinct positions distinct, and
      the removed entry is no longer listed. */
  lemma WithoutDistinct(s: seq<int>, i: int)
    requires 0 <= i < |s| && Distinct(s)
    ensures Distinct(Without(s, i))
    ensures forall k :: 0 <= k < |s| - 1 ==> Without(s, i)[k] != s[i]
  {
    var t := Without(s, i);
    forall k, m | 0 <= k < |t| && 0 <= m < |t| && k != m
      ensures t[k] != t[m]
    {
      var k' := if k < i then k else k + 1;
      var m' := if m < i then m else m + 1;
      assert s[k'] != s[m'];
    }
  }

  /** Two different row-major positions name different cells. */
  lemma PositionsDiffer(p: int, q: int)
    requires 0 <= p && 0 <= q && p != q
    ensures p / GRID_SIZE != q / GRID_SIZE || p % GRID_SIZE != q % GRID_SIZE
  {
  }

  /** A full grid is its own only search result. */
  lemma SearchOfFullGrid(b: Board)
    requires IsBoard(b) && NoZero(b)
    ensures Search(b) == [b]
  {
    FindEmptyFirst(b);
  }

  /** The listed positions hold their values from `start`. */
  ghost predicate Kept(b: Board, start: Board, positions: seq<int>)
    requires IsBoard(b) && IsBoard(start)
  {
    forall k :: 0 <= k < |positions| ==> 0 <= positions[k] < GRID_SIZE * GRID_SIZE && At(b, positions[k]) == At(start, positions[k])
  }

  /** One removal attempt of generate: empties cell (row, col), asks hasUniqueSolution,
      and puts the value back when the answer is no. */
  method TryRemove(puzzle: array2<int>, row: int, col: int) returns (removed: bool)
    requires IsGrid(puzzle) && 0 <= row < GRID_SIZE && 0 <= col < GRID_SIZE
    modifies puzzle
    ensures removed <==> |Search(Update(old(Snap(puzzle)), row, col, 0))| == 1
    ensures Snap(puzzle) == if removed then Update(old(Snap(puzzle)), row, col, 0) else old(Snap(puzzle))
  {
    ghost var start := Snap(puzzle);
    var temp := puzzle[row, col];
    SnapCells(puzzle);
    puzzle[row, col] := 0;
    SnapCells(puzzle);
    BoardExt(Snap(puzzle), Update(start, row, col, 0));
    removed := SudokuSolver.HasUniqueSolution(puzzle);
    if !removed {
      puzzle[row, col] := temp;
      SnapCells(puzzle);
      BoardExt(Snap(puzzle), start);
    }
  }

  /**
   * The removal loop of generate. Starting from the full solved grid, it picks
   * random listed positions, drops each from the list, and empties its cell when
   * the puzzle keeps exactly one search result, until cellsToKeep positions are
   * left. The positions still listed keep their values, every filled cell keeps
   * its value from the start, and the search still finds exactly one grid.
   */
  method RemoveCells(puzzle: array2<int>, cellsToKeep: int, rng: Random) returns (positions: seq<int>)
    requires IsGrid(puzzle) && NoZero(Snap(puzzle)) && 0 <= cellsToKeep <= GRID_SIZE * GRID_SIZE
    modifies puzzle, rng
    ensures |positions| == cellsToKeep && Distinct(positions)
    ensures rng.count == old(rng.count) + (GRID_SIZE * GRID_SIZE - cellsToKeep)
    ensures Kept(Snap(puzzle), old(Snap(puzzle)), positions)
    ensures Extends(Snap(puzzle), old(Snap(puzzle)))
    ensures |Search(Snap(puzzle))| == 1
  {
    ghost var start := Snap(puzzle);
    SearchOfFullGrid(start);
    positions := seq(GRID_SIZE * GRID_SIZE, p => p);
    while |positions| > cellsToKeep
      invariant cellsToKeep <= |positions| && Distinct(positions)
      invariant rng.count == old(rng.count) + (GRID_SIZE * GRID_SIZE - |positions|)
      invariant Kept(Snap(puzzle), start, positions)
      invariant Extends(Snap(puzzle), start)
      invariant |Search(Snap(puzzle))| == 1
      decreases |positions|
    {
      var x := rng.Next();
      var index := Scale(x, |positions|);
      var pos := positions[index];
      ghost var before := Snap(puzzle);
      WithoutDistinct(positions, index);
      positions := Without(positions, index);
      var removed := TryRemove(puzzle, pos / GRID_SIZE, pos % GRID_SIZE);
      RemovalKeeps(before, Snap(puzzle), start, positions, pos, removed);
    }
  }

  /** The state after one removal attempt still satisfies the loop's invariants. */
  lemma RemovalKeeps(before: Board, after: Board, start: Board, positions: seq<int>, pos: int, removed: bool)
    requires IsBoard(before) && IsBoard(start) && 0 <= pos < GRID_SIZE * GRID_SIZE
    requires after == if removed then Update(before, pos / GRID_SIZE, pos % GRID_SIZE, 0) else before
    requires Extends(before, start)
    requires forall k :: 0 <= k < |positions| ==> positions[k] != pos
    requires Kept(before, start, positions)
    ensures IsBoard(after) && Kept(after, start, positions) && Extends(after, start)
  {
    if removed {
      forall k | 0 <= k < |positions|
        ensures At(after, positions[k]) == At(before, positions[k])
      {
        PositionsDiffer(positions[k], pos);
      }
    }
  }

  // ---------------------------------------------------------------------------
  // generate
  // ---------------------------------------------------------------------------

  /** A generated puzzle together with the solution the source stores in `window.solution`. */
  datatype Generated = Generated(puzzle: Board, solution: Board)

  /** A sub-grid of a solved grid is consistent and holds values 0..9. */
  lemma PartOfSolvedIsConsistent(p: Board, s: Board)
    requires IsBoard(p) && IsBoard(s) && IsSolved(s) && Extends(p, s)
    ensures NoConflict(p) && ValuesIn(p, 0, GRID_SIZE)
  {
  }

  /** The kept-cell count drawn by generate lies in the difficulty's range. */
  lemma CellsToKeepInRange(d: Difficulty, x: Fraction)
    ensures Settings(d).minCells <= Settings(d).minCells + Scale(x, Settings(d).maxCells - Settings(d).minCells + 1) <= Settings(d).maxCells
  {
  }

  /** Distinct listed positions whose cells are filled count toward the filled cells. */
  lemma FilledAtLeast(b: Board, positions: seq<int>)
    requires IsBoard(b) && Distinct(positions)
    requires forall k :: 0 <= k < |positions| ==> 0 <= positions[k] < GRID_SIZE * GRID_SIZE && At(b, positions[k]) != 0
    ensures |FilledCells(b)| >= |positions|
  {
    DistinctCount(positions);
    SubsetCount((set x | x in positions), FilledCells(b));
  }

  /** A list of distinct values has as many elements as its set of values. */
  lemma {:induction false} DistinctCount(s: seq<int>)
    requires Distinct(s)
    ensures |set x | x in s| == |s|
  {
    if s != [] {
      var t := s[..|s| - 1];
      var last := s[|s| - 1];
      assert Distinct(t);
      DistinctCount(t);
      assert (set x | x in s) == (set x | x in t) + {last};
      assert last !in t;
    }
  }

  lemma SubsetCount(a: set<int>, b: set<int>)
    requires a <= b
    ensures |a| <= |b|
  {
    assert b == a + (b - a);
    assert a * (b - a) == {};
  }

  /** The closing check of generate: solves a copy of the puzzle and reports the
      outcome; the puzzle itself is not modified. */
  method SolvesOnCopy(puzzle: array2<int>) returns (ok: bool)
    requires IsGrid(puzzle)
    ensures ok <==> Search(Snap(puzzle)) != []
  {
    var testGrid := CopyGrid(puzzle);
    ok := Solve(testGrid);
  }

  /**
   * generate: seeds the diagonal boxes, solves the grid, keeps a copy as the
   * solution, draws how many cells to keep from the difficulty's range and
   * empties cells while the search keeps exactly one result. A seed that does not
   * solve is retried without counting an attempt; `seedRetries` bounds those
   * retries, and `failedSeeds` counts them. A puzzle whose final check fails
   * would cost one of MAX_ATTEMPTS attempts, but removal always leaves a puzzle
   * with exactly one search result, so the final check always passes: None, the
   * thrown error, comes only from running out of seed retries.
   */
  method Generate(rng: Random, seedRetries: nat, difficulty: Difficulty := Normal)
    returns (result: Option<Generated>, ghost failedSeeds: nat)
    modifies rng
    ensures result.Some? ==> GoodPuzzle(result.value, Settings(difficulty))
    ensures result.None? <==> failedSeeds == seedRetries + 1
    ensures failedSeeds <= seedRetries + 1
  {
    var settings := Settings(difficulty);
    var attempts := 0;
    var retries := seedRetries;
    failedSeeds := 0;
    while true
      invariant 0 <= attempts < MAX_ATTEMPTS
      invariant failedSeeds + retries == seedRetries
      decreases MAX_ATTEMPTS - attempts, retries
    {
      var grid := SeedDiagonalBoxes(rng);
      ghost var seed := Snap(grid);
      var solved := Solve(grid);
      if !solved {
        failedSeeds := failedSeeds + 1;
        if retries == 0 {
          return None, failedSeeds;
        }
        retries := retries - 1;
        continue;
      }
      var solution := Snap(grid);
      DiagonalSeedConsistent(seed);
      SolvedGridIsCompletion(seed);
      var puzzle := CopyGrid(grid);
      var x := rng.Next();
      var cellsToKeep := settings.minCells + Scale(x, settings.maxCells - settings.minCells + 1);
      CellsToKeepInRange(difficulty, x);
      var positions := RemoveCells(puzzle, cellsToKeep, rng);
      var ok := SolvesOnCopy(puzzle);
      assert ok;
      if ok {
        var generated := Generated(Snap(puzzle), solution);
        GeneratedIsGood(generated, settings, positions);
        return Some(generated), failedSeeds;
      }
      attempts := attempts + 1;
      if attempts == MAX_ATTEMPTS {
        return None, failedSeeds;
      }
    }
  }

  /** What generate promises about a puzzle it returns: the solution is a solved
      grid whose units are permutations of 1..9, the puzzle keeps only cells of
      the solution, at least minCells of them, and the solution is the puzzle's
      only solution and the only grid the search reaches from it. */
  ghost predicate GoodPuzzle(g: Generated, range: CellRange) {
    IsBoard(g.puzzle) && IsBoard(g.solution) &&
    IsSolved(g.solution) && UnitsArePermutations(g.solution) &&
    Extends(g.puzzle, g.solution) &&
    Search(g.puzzle) == [g.solution] && SearchTheory.HasUniqueSolution(g.puzzle) &&
    |FilledCells(g.puzzle)| >= range.minCells
  }

  /** The facts RemoveCells leaves behind make a good puzzle. */
  lemma GeneratedIsGood(g: Generated, range: CellRange, positions: seq<int>)
    requires IsBoard(g.puzzle) && IsBoard(g.solution)
    requires IsSolved(g.solution) && UnitsArePermutations(g.solution) && NoZero(g.solution)
    requires Extends(g.puzzle, g.solution) && |Search(g.puzzle)| == 1
    requires |positions| >= range.minCells && Distinct(positions) && Kept(g.puzzle, g.solution, positions)
    ensures GoodPuzzle(g, range)
  {
    PartOfSolvedIsConsistent(g.puzzle, g.solution);
    assert IsSolutionOf(g.puzzle, g.solution);
    SearchComplete(g.puzzle, g.solution);
    UniqueSearchMeansUniqueSolution(g.puzzle);
    forall k | 0 <= k < |positions|
      ensures At(g.puzzle, positions[k]) != 0
    {
      var p := positions[k];
      assert g.solution[p / GRID_SIZE][p % GRID_SIZE] != 0;
    }
    FilledAtLeast(g.puzzle, positions);
  }
}
