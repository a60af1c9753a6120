/**
 * What the depth-first search of the solver finds: every grid it reaches is a
 * zero-free completion of its input, every solution of the input is reached,
 * no grid is reached twice, and so "exactly one grid reached" means "exactly
 * one solution" for a consistent input.
 */
module SearchTheory {
  import opened Config
  import opened Grid
  import opened SudokuSolver

  // ---------------------------------------------------------------------------
  // A valid placement
  // ---------------------------------------------------------------------------

  /** Placing a value that IsValid accepts into an empty cell of a consistent grid keeps it consistent. */
  lemma ValidPlacementConsistent(b: Board, r: int, c: int, v: int)
    requires IsBoard(b) && 0 <= r < GRID_SIZE && 0 <= c < GRID_SIZE && b[r][c] == 0
    requires v != 0 && IsValid(b, r, c, v) && NoConflict(b)
    ensures NoConflict(Update(b, r, c, v))
  {
    var b' := Update(b, r, c, v);
    forall r1, c1, r2, c2 |
      0 <= r1 < GRID_SIZE && 0 <= c1 < GRID_SIZE && 0 <= r2 < GRID_SIZE && 0 <= c2 < GRID_SIZE &&
      (r1 != r2 || c1 != c2) && SameUnit(r1, c1, r2, c2) && b'[r1][c1] != 0
      ensures b'[r1][c1] != b'[r2][c2]
    {
      if r1 == r && c1 == c {
        NotInUnit(b, r, c, v, r2, c2);
      } else if r2 == r && c2 == c {
        NotInUnit(b, r, c, v, r1, c1);
      }
    }
  }

  /** A value that IsValid accepts at (r, c) is held by no other cell of its row, column or box. */
  lemma NotInUnit(b: Board, r: int, c: int, v: int, r2: int, c2: int)
    requires IsBoard(b) && 0 <= r < GRID_SIZE && 0 <= c < GRID_SIZE && IsValid(b, r, c, v)
    requires 0 <= r2 < GRID_SIZE && 0 <= c2 < GRID_SIZE && (SameUnit(r, c, r2, c2) || SameUnit(r2, c2, r, c))
    ensures b[r2][c2] != v
  {
    SameBox(r, r2);
    SameBox(c, c2);
    if r2 == r {
      assert !OccursInRow(b, r, v);
    } else if c2 == c {
      assert !OccursInColumn(b, c, v);
    } else {
      assert !OccursInBox(b, r, c, v);
    }
  }

  /** A value that a solution s of b holds at an empty cell of b passes IsValid. */
  lemma SolutionValueIsValid(b: Board, s: Board, r: int, c: int)
    requires IsBoard(b) && IsSolutionOf(b, s) && 0 <= r < GRID_SIZE && 0 <= c < GRID_SIZE && b[r][c] == 0
    ensures IsValid(b, r, c, s[r][c])
  {
    var v := s[r][c];
    assert v != 0;
    if OccursInRow(b, r, v) {
      var c2 :| 0 <= c2 < GRID_SIZE && b[r][c2] == v;
      assert s[r][c2] == v && SameUnit(r, c, r, c2);
    }
    if OccursInColumn(b, c, v) {
      var r2 :| 0 <= r2 < GRID_SIZE && b[r2][c] == v;
      assert s[r2][c] == v && SameUnit(r, c, r2, c);
    }
    if OccursInBox(b, r, c, v) {
      var r2, c2 :| BoxStart(r) <= r2 < BoxStart(r) + BOX_SIZE && BoxStart(c) <= c2 < BoxStart(c) + BOX_SIZE &&
        b[r2][c2] == v;
      SameBox(r, r2);
      SameBox(c, c2);
      assert s[r2][c2] == v && SameUnit(r, c, r2, c2);
    }
  }

  // ---------------------------------------------------------------------------
  // Soundness: what the search reaches
  // ---------------------------------------------------------------------------

  /** s is a zero-free completion of b that keeps every given of b, and it is
      conflict-free with digits 1..9 whenever b is conflict-free with values 0..9. */
  ghost predicate Reached(b: Board, s: Board)
    requires IsBoard(b)
  {
    IsBoard(s) && NoZero(s) && Extends(b, s) &&
    (NoConflict(b) ==> NoConflict(s)) &&
    (ValuesIn(b, 0, GRID_SIZE) ==> ValuesIn(s, 1, GRID_SIZE))
  }

  /** What is reached after a valid placement is reached from the grid before it. */
  lemma ReachedAfterPlacement(b: Board, r: int, c: int, v: int, s: Board)
    requires IsBoard(b) && 0 <= r < GRID_SIZE && 0 <= c < GRID_SIZE && b[r][c] == 0
    requires 1 <= v <= GRID_SIZE && IsValid(b, r, c, v)
    requires Reached(Update(b, r, c, v), s)
    ensures Reached(b, s) && s[r][c] == v
  {
    var b' := Update(b, r, c, v);
    if NoConflict(b) {
      ValidPlacementConsistent(b, r, c, v);
    }
    if ValuesIn(b, 0, GRID_SIZE) {
      assert ValuesIn(b', 0, GRID_SIZE);
    }
  }

  /** Every grid the search reaches from b is a completion of b (see Reached). */
  lemma {:induction false} SearchSound(b: Board)
    requires IsBoard(b)
    decreases ZeroCells(b), 1
    ensures forall s :: s in Search(b) ==> Reached(b, s)
  {
    FindEmptyFirst(b);
    match FindEmpty(b)
    case None =>
      assert Search(b) == [b];
    case Some((r, c)) =>
      SearchUnfold(b, r, c);
      SearchFromSound(b, r, c, 1);
  }

  /** The grids reached by the candidates n..9 at the empty cell (r, c) are
      completions of b holding one of those candidates at (r, c). */
  lemma {:induction false} SearchFromSound(b: Board, r: int, c: int, n: int)
    requires IsBoard(b) && 0 <= r < GRID_SIZE && 0 <= c < GRID_SIZE && b[r][c] == 0
    requires 1 <= n <= GRID_SIZE + 1
    decreases ZeroCells(b), 0, GRID_SIZE + 1 - n
    ensures forall s :: s in SearchFrom(b, r, c, n) ==> Reached(b, s) && n <= s[r][c] <= GRID_SIZE
  {
    if n <= GRID_SIZE {
      BranchSound(b, r, c, n);
      SearchFromSound(b, r, c, n + 1);
      forall s | s in SearchFrom(b, r, c, n)
        ensures Reached(b, s) && n <= s[r][c] <= GRID_SIZE
      {
        FromEither(b, r, c, n, s);
      }
    } else {
      SearchFromEnd(b, r, c);
    }
  }

  /** The grids reached after placing v at the empty cell (r, c) are completions
      of b that hold v at (r, c). */
  lemma {:induction false} BranchSound(b: Board, r: int, c: int, v: int)
    requires IsBoard(b) && 0 <= r < GRID_SIZE && 0 <= c < GRID_SIZE && b[r][c] == 0
    requires 1 <= v <= GRID_SIZE
    decreases ZeroCells(b), 0, 0
    ensures forall s :: s in Branch(b, r, c, v) ==> Reached(b, s) && s[r][c] == v
  {
    BranchUnfold(b, r, c, v);
    if IsValid(b, r, c, v) {
      ZeroCellsShrink(b, r, c, v);
      SearchSound(Update(b, r, c, v));
      forall s | s in Branch(b, r, c, v)
        ensures Reached(b, s) && s[r][c] == v
      {
        ReachedAfterPlacement(b, r, c, v, s);
      }
    }
  }

  // ---------------------------------------------------------------------------
  // Completeness: every solution is reached
  // ---------------------------------------------------------------------------

  /** Every solution of b is among the grids the search reaches from b. */
  lemma {:induction false} SearchComplete(b: Board, s: Board)
    requires IsBoard(b) && IsSolutionOf(b, s)
    decreases ZeroCells(b), 1
    ensures s in Search(b)
  {
    FindEmptyFirst(b);
    match FindEmpty(b)
    case None =>
      BoardExt(s, b);
      assert Search(b) == [b];
    case Some((r, c)) =>
      SearchUnfold(b, r, c);
      SearchFromComplete(b, r, c, s);
  }

  /** A solution of b is reached by the candidates 1..9 at the empty cell (r, c). */
  lemma SearchFromComplete(b: Board, r: int, c: int, s: Board)
    requires IsBoard(b) && 0 <= r < GRID_SIZE && 0 <= c < GRID_SIZE && b[r][c] == 0
    requires IsSolutionOf(b, s)
    decreases ZeroCells(b), 0, 1
    ensures s in SearchFrom(b, r, c, 1)
  {
    PlacementComplete(b, r, c, s);
    ReachedFrom(b, r, c, 1, s[r][c], s);
  }

  /** What candidate v's branch reaches is reached by the candidates n..9 for every n up to v. */
  lemma {:induction false} ReachedFrom(b: Board, r: int, c: int, n: int, v: int, s: Board)
    requires IsBoard(b) && 0 <= r < GRID_SIZE && 0 <= c < GRID_SIZE && b[r][c] == 0
    requires 1 <= n <= v <= GRID_SIZE && s in Branch(b, r, c, v)
    decreases v - n
    ensures s in SearchFrom(b, r, c, n)
  {
    if n == v {
      FromBranch(b, r, c, n, s);
    } else {
      ReachedFrom(b, r, c, n + 1, v, s);
      FromLater(b, r, c, n, s);
    }
  }

  /** What candidate n's branch reaches is reached by the candidates n..9. */
  lemma FromBranch(b: Board, r: int, c: int, n: int, s: Board)
    requires IsBoard(b) && 0 <= r < GRID_SIZE && 0 <= c < GRID_SIZE && b[r][c] == 0
    requires 1 <= n <= GRID_SIZE && s in Branch(b, r, c, n)
    ensures s in SearchFrom(b, r, c, n)
  {
    SearchFromNext(b, r, c, n);
  }

  /** What the candidates n+1..9 reach is reached by the candidates n..9. */
  lemma FromLater(b: Board, r: int, c: int, n: int, s: Board)
    requires IsBoard(b) && 0 <= r < GRID_SIZE && 0 <= c < GRID_SIZE && b[r][c] == 0
    requires 1 <= n <= GRID_SIZE && s in SearchFrom(b, r, c, n + 1)
    ensures s in SearchFrom(b, r, c, n)
  {
    SearchFromNext(b, r, c, n);
  }

  /** What the candidates n..9 reach is reached by candidate n or by the candidates n+1..9. */
  lemma FromEither(b: Board, r: int, c: int, n: int, s: Board)
    requires IsBoard(b) && 0 <= r < GRID_SIZE && 0 <= c < GRID_SIZE && b[r][c] == 0
    requires 1 <= n <= GRID_SIZE && s in SearchFrom(b, r, c, n)
    ensures s in Branch(b, r, c, n) || s in SearchFrom(b, r, c, n + 1)
  {
    SearchFromNext(b, r, c, n);
  }

  /** Placing the solution's own value at the empty cell (r, c) is a valid move
      whose branch reaches s. */
  lemma {:induction false} PlacementComplete(b: Board, r: int, c: int, s: Board)
    requires IsBoard(b) && 0 <= r < GRID_SIZE && 0 <= c < GRID_SIZE && b[r][c] == 0
    requires IsSolutionOf(b, s)
    decreases ZeroCells(b), 0, 0
    ensures 1 <= s[r][c] <= GRID_SIZE && s in Branch(b, r, c, s[r][c])
  {
    SolutionValueIsValid(b, s, r, c);
    BranchUnfold(b, r, c, s[r][c]);
    var b' := Update(b, r, c, s[r][c]);
    assert Extends(b', s);
    ZeroCellsShrink(b, r, c, s[r][c]);
    SearchComplete(b', s);
  }

  // ---------------------------------------------------------------------------
  // No grid is reached twice
  // ---------------------------------------------------------------------------

  ghost predicate NoDuplicates(xs: seq<Board>) {
    forall i, j :: 0 <= i < j < |xs| ==> xs[i] != xs[j]
  }

  lemma ConcatNoDuplicates(xs: seq<Board>, ys: seq<Board>)
    requires NoDuplicates(xs) && NoDuplicates(ys)
    requires forall x :: x in xs ==> x !in ys
    ensures NoDuplicates(xs + ys)
  {
    var zs := xs + ys;
    forall i, j | 0 <= i < j < |zs|
      ensures zs[i] != zs[j]
    {
      if i < |xs| && |xs| <= j {
        assert zs[i] in xs && zs[j] == ys[j - |xs|];
      } else if |xs| <= i {
        assert zs[i] == ys[i - |xs|] && zs[j] == ys[j - |xs|];
      }
    }
  }

  /** The search never reaches the same grid twice. */
  lemma {:induction false} SearchDistinct(b: Board)
    requires IsBoard(b)
    decreases ZeroCells(b), 1
    ensures NoDuplicates(Search(b))
  {
    FindEmptyFirst(b);
    match FindEmpty(b)
    case None =>
      assert Search(b) == [b];
    case Some((r, c)) =>
      SearchUnfold(b, r, c);
      SearchFromDistinct(b, r, c, 1);
  }

  lemma {:induction false} SearchFromDistinct(b: Board, r: int, c: int, n: int)
    requires IsBoard(b) && 0 <= r < GRID_SIZE && 0 <= c < GRID_SIZE && b[r][c] == 0
    requires 1 <= n <= GRID_SIZE + 1
    decreases ZeroCells(b), 0, GRID_SIZE + 1 - n
    ensures NoDuplicates(SearchFrom(b, r, c, n))
  {
    if n <= GRID_SIZE {
      SearchFromNext(b, r, c, n);
      BranchDistinct(b, r, c, n);
      SearchFromDistinct(b, r, c, n + 1);
      BranchAndLaterDisjoint(b, r, c, n);
      ConcatNoDuplicates(Branch(b, r, c, n), SearchFrom(b, r, c, n + 1));
    } else {
      SearchFromEnd(b, r, c);
    }
  }

  /** The candidate v and the candidates after it reach different grids, since
      those grids differ at (r, c). */
  lemma BranchAndLaterDisjoint(b: Board, r: int, c: int, v: int)
    requires IsBoard(b) && 0 <= r < GRID_SIZE && 0 <= c < GRID_SIZE && b[r][c] == 0
    requires 1 <= v <= GRID_SIZE
    ensures forall x :: x in Branch(b, r, c, v) ==> x !in SearchFrom(b, r, c, v + 1)
  {
    BranchSound(b, r, c, v);
    SearchFromSound(b, r, c, v + 1);
  }

  lemma {:induction false} BranchDistinct(b: Board, r: int, c: int, v: int)
    requires IsBoard(b) && 0 <= r < GRID_SIZE && 0 <= c < GRID_SIZE && b[r][c] == 0
    requires 1 <= v <= GRID_SIZE
    decreases ZeroCells(b), 0, 0
    ensures NoDuplicates(Branch(b, r, c, v))
  {
    BranchUnfold(b, r, c, v);
    if IsValid(b, r, c, v) {
      ZeroCellsShrink(b, r, c, v);
      SearchDistinct(Update(b, r, c, v));
    }
  }

  // ---------------------------------------------------------------------------
  // What solve and hasUniqueSolution report
  // ---------------------------------------------------------------------------

  /** The puzzle b has exactly one solution. */
  ghost predicate HasUniqueSolution(b: Board)
    requires IsBoard(b)
  {
    exists s :: IsSolutionOf(b, s) && forall t :: IsSolutionOf(b, t) ==> t == s
  }

  /** For a consistent puzzle with values 0..9, the search reaches exactly one grid
      exactly when the puzzle has exactly one solution. */
  lemma UniqueSearchMeansUniqueSolution(b: Board)
    requires IsBoard(b) && NoConflict(b) && ValuesIn(b, 0, GRID_SIZE)
    ensures |Search(b)| == 1 <==> HasUniqueSolution(b)
  {
    if |Search(b)| == 1 {
      OneFoundIsUnique(b);
    }
    if HasUniqueSolution(b) {
      UniqueIsOneFound(b);
    }
  }

  lemma OneFoundIsUnique(b: Board)
    requires IsBoard(b) && NoConflict(b) && ValuesIn(b, 0, GRID_SIZE) && |Search(b)| == 1
    ensures HasUniqueSolution(b)
  {
    var s := Search(b)[0];
    SearchSound(b);
    ReachedIsSolution(b, s);
    forall t | IsSolutionOf(b, t)
      ensures t == s
    {
      SearchComplete(b, t);
    }
    assert IsSolutionOf(b, s) && forall t :: IsSolutionOf(b, t) ==> t == s;
  }

  lemma UniqueIsOneFound(b: Board)
    requires IsBoard(b) && NoConflict(b) && ValuesIn(b, 0, GRID_SIZE) && HasUniqueSolution(b)
    ensures |Search(b)| == 1
  {
    var found := Search(b);
    var s :| IsSolutionOf(b, s) && forall t :: IsSolutionOf(b, t) ==> t == s;
    SearchSound(b);
    SearchComplete(b, s);
    SearchDistinct(b);
    forall i | 0 <= i < |found|
      ensures found[i] == s
    {
      ReachedIsSolution(b, found[i]);
    }
    OnlyOneValue(found, s);
  }

  /** For a consistent puzzle with values 0..9, a grid the search reaches is a solution. */
  lemma ReachedIsSolution(b: Board, s: Board)
    requires IsBoard(b) && NoConflict(b) && ValuesIn(b, 0, GRID_SIZE) && Reached(b, s)
    ensures IsSolutionOf(b, s)
  {
  }

  /** A duplicate-free sequence that holds x and nothing else has length one. */
  lemma OnlyOneValue(xs: seq<Board>, x: Board)
    requires NoDuplicates(xs) && x in xs && forall i :: 0 <= i < |xs| ==> xs[i] == x
    ensures |xs| == 1
  {
    FirstTwoDiffer(xs);
  }

  lemma FirstTwoDiffer(xs: seq<Board>)
    requires NoDuplicates(xs)
    ensures |xs| >= 2 ==> xs[0] != xs[1]
  {
  }

  /** The grid solve leaves behind when it returns true is a zero-free completion
      of its input; for a consistent input with values 0..9 it is a solution in
      which every row, column and box is a permutation of 1..9. */
  lemma SolvedGridIsCompletion(b: Board)
    requires IsBoard(b) && Search(b) != []
    ensures IsBoard(Search(b)[0]) && NoZero(Search(b)[0]) && Extends(b, Search(b)[0])
    ensures NoConflict(b) && ValuesIn(b, 0, GRID_SIZE) ==>
              IsSolutionOf(b, Search(b)[0]) && UnitsArePermutations(Search(b)[0])
  {
    SearchSound(b);
    var s := Search(b)[0];
    assert Reached(b, s);
    if NoConflict(b) && ValuesIn(b, 0, GRID_SIZE) {
      SolvedUnitsArePermutations(s);
    }
  }

  /** When solve returns false the puzzle has no solution at all. */
  lemma NothingFoundMeansNoSolution(b: Board, s: Board)
    requires IsBoard(b) && Search(b) == []
    ensures !IsSolutionOf(b, s)
  {
    if IsSolutionOf(b, s) {
      SearchComplete(b, s);
    }
  }
}
