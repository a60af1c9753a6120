/**
 * isValidSudokuGrid: rejects a grid that is not nine rows of nine integers in
 * 0..9, and otherwise repairs it in place by emptying every cell whose value
 * recurs in its row, column or box.
 */
module Validator {
  import opened Config
  import opened Grid
  import opened SudokuSolver

  /** A value held by a row: an integer, or anything else (a string, a fraction, undefined). */
  datatype Entry = Int(value: int) | NonInteger

  /** One element of the outer array: an array of entries, or anything else. */
  datatype RawRow = Row(entries: seq<Entry>) | NotAnArray

  /** A conflict the scan records: the cell and the value it held. */
  datatype Conflict = Conflict(row: int, col: int, num: int)

  /** The entry is an integer in 0..9. */
  predicate EntryInRange(e: Entry) {
    e.Int? && 0 <= e.value <= GRID_SIZE
  }

  /** The row is an array of nine integers in 0..9. */
  predicate RowWellFormed(row: RawRow) {
    row.Row? && |row.entries| == GRID_SIZE &&
    forall j :: 0 <= j < GRID_SIZE ==> EntryInRange(row.entries[j])
  }

  /** The shape and range check: nine rows of nine integers in 0..9. */
  predicate WellFormed(rows: seq<RawRow>) {
    |rows| == GRID_SIZE && forall i :: 0 <= i < |rows| ==> RowWellFormed(rows[i])
  }

  /** The integer grid a well-formed value holds. */
  function ToBoard(rows: seq<RawRow>): (b: Board)
    requires WellFormed(rows)
    ensures IsBoard(b) && ValuesIn(b, 0, GRID_SIZE)
    ensures forall i, j :: 0 <= i < GRID_SIZE && 0 <= j < GRID_SIZE ==> b[i][j] == rows[i].entries[j].value
  {
    seq(GRID_SIZE, i requires 0 <= i < GRID_SIZE =>
      seq(GRID_SIZE, j requires 0 <= j < GRID_SIZE => rows[i].entries[j].value))
  }

  /** A well-formed grid is determined by its integers, so comparing the boards
      of two well-formed grids compares the grids. */
  lemma ToBoardInjective(xs: seq<RawRow>, ys: seq<RawRow>)
    requires WellFormed(xs) && WellFormed(ys) && ToBoard(xs) == ToBoard(ys)
    ensures xs == ys
  {
    forall i | 0 <= i < GRID_SIZE
      ensures xs[i] == ys[i]
    {
      forall j | 0 <= j < GRID_SIZE
        ensures xs[i].entries[j] == ys[i].entries[j]
      {
        assert ToBoard(xs)[i][j] == ToBoard(ys)[i][j];
      }
    }
  }

  // ---------------------------------------------------------------------------
  // Conflict detection and repair
  // ---------------------------------------------------------------------------

  /** The scan's test: with the cell emptied, its own value fails IsValid at that
      cell. Only a non-empty cell whose value occurs in its row, column or box
      again can be flagged; DetectionIsConflict gives the exact characterisation. */
  function Conflicting(b: Board, r: int, c: int): (flagged: bool)
    requires IsBoard(b) && 0 <= r < GRID_SIZE && 0 <= c < GRID_SIZE
    ensures flagged ==>
              b[r][c] != 0 &&
              (OccursInRow(Update(b, r, c, 0), r, b[r][c]) || OccursInColumn(Update(b, r, c, 0), c, b[r][c]) ||
               OccursInBox(Update(b, r, c, 0), r, c, b[r][c]))
  {
    b[r][c] != 0 && !IsValid(Update(b, r, c, 0), r, c, b[r][c])
  }

  /** The scan's test finds exactly the non-zero cells whose value recurs in their row, column or box. */
  lemma DetectionIsConflict(b: Board, r: int, c: int)
    requires IsBoard(b) && 0 <= r < GRID_SIZE && 0 <= c < GRID_SIZE
    ensures Conflicting(b, r, c) <==> InConflict(b, r, c)
  {
    var v, e := b[r][c], Update(b, r, c, 0);
    if v != 0 && !IsValid(e, r, c, v) {
      if OccursInRow(e, r, v) {
        var c2 :| 0 <= c2 < GRID_SIZE && e[r][c2] == v;
        assert c2 != c && b[r][c2] == v && SameUnit(r, c, r, c2);
      } else if OccursInColumn(e, c, v) {
        var r2 :| 0 <= r2 < GRID_SIZE && e[r2][c] == v;
        assert r2 != r && b[r2][c] == v && SameUnit(r, c, r2, c);
      } else {
        var r2, c2 :| BoxStart(r) <= r2 < BoxStart(r) + BOX_SIZE && BoxStart(c) <= c2 < BoxStart(c) + BOX_SIZE &&
          e[r2][c2] == v;
        SameBox(r, r2);
        SameBox(c, c2);
        assert (r2 != r || c2 != c) && b[r2][c2] == v && SameUnit(r, c, r2, c2);
      }
    }
    if InConflict(b, r, c) {
      var r2, c2 :| 0 <= r2 < GRID_SIZE && 0 <= c2 < GRID_SIZE && (r2 != r || c2 != c) &&
        SameUnit(r, c, r2, c2) && b[r2][c2] == v;
      assert e[r2][c2] == v;
      if r2 == r {
        assert OccursInRow(e, r, v);
      } else if c2 == c {
        assert OccursInColumn(e, c, v);
      } else {
        SameBox(r, r2);
        SameBox(c, c2);
        assert OccursInBox(e, r, c, v);
      }
    }
  }

  /** The grid with every conflicting cell emptied and every other cell kept. */
  function Repaired(b: Board): (b': Board)
    requires IsBoard(b)
    ensures IsBoard(b')
  {
    seq(GRID_SIZE, r requires 0 <= r < GRID_SIZE =>
      seq(GRID_SIZE, c requires 0 <= c < GRID_SIZE => if Conflicting(b, r, c) then 0 else b[r][c]))
  }

  /** Repair empties exactly the non-zero cells whose value recurs in their row,
      column or box of the original grid, and keeps every other cell. */
  lemma RepairedZeroesConflicts(b: Board)
    requires IsBoard(b)
    ensures forall r, c :: 0 <= r < GRID_SIZE && 0 <= c < GRID_SIZE ==>
              Repaired(b)[r][c] == if InConflict(b, r, c) then 0 else b[r][c]
  {
    forall r, c | 0 <= r < GRID_SIZE && 0 <= c < GRID_SIZE
      ensures Repaired(b)[r][c] == if InConflict(b, r, c) then 0 else b[r][c]
    {
      DetectionIsConflict(b, r, c);
    }
  }

  /** After repair no row, column or box holds a non-zero value twice. */
  lemma RepairedHasNoConflict(b: Board)
    requires IsBoard(b)
    ensures NoConflict(Repaired(b))
  {
    var b' := Repaired(b);
    RepairedZeroesConflicts(b);
    forall r1, c1, r2, c2 |
      0 <= r1 < GRID_SIZE && 0 <= c1 < GRID_SIZE && 0 <= r2 < GRID_SIZE && 0 <= c2 < GRID_SIZE &&
      (r1 != r2 || c1 != c2) && SameUnit(r1, c1, r2, c2) && b'[r1][c1] != 0
      ensures b'[r1][c1] != b'[r2][c2]
    {
      assert !InConflict(b, r1, c1) && b'[r1][c1] == b[r1][c1];
      assert b[r2][c2] != b[r1][c1];
    }
  }

  /** A grid without conflicts is left as it is, so repairing twice is repairing once. */
  lemma RepairIdempotent(b: Board)
    requires IsBoard(b)
    ensures NoConflict(b) ==> Repaired(b) == b
    ensures Repaired(Repaired(b)) == Repaired(b)
  {
    forall b0 | IsBoard(b0) && NoConflict(b0)
      ensures Repaired(b0) == b0
    {
      RepairedZeroesConflicts(b0);
      BoardExt(Repaired(b0), b0);
    }
    RepairedHasNoConflict(b);
  }

  /** A second isValidSudokuGrid on a repaired grid changes nothing: if once is
      the grid the first call leaves and twice the one the second call leaves,
      they are the same grid. */
  lemma SecondRepairChangesNothing(rows: seq<RawRow>, once: seq<RawRow>, twice: seq<RawRow>)
    requires WellFormed(rows) && WellFormed(once) && WellFormed(twice)
    requires ToBoard(once) == Repaired(ToBoard(rows))
    requires ToBoard(twice) == Repaired(ToBoard(once))
    ensures twice == once
  {
    RepairIdempotent(ToBoard(rows));
    ToBoardInjective(twice, once);
  }

  // ---------------------------------------------------------------------------
  // The conflict list and its application
  // ---------------------------------------------------------------------------

  /** The conflicts the scan records in row r at columns 0..j-1, in order. */
  function ConflictsInRow(b: Board, r: int, j: int): (cs: seq<Conflict>)
    requires IsBoard(b) && 0 <= r < GRID_SIZE && 0 <= j <= GRID_SIZE
    ensures forall k :: 0 <= k < |cs| ==> cs[k].row == r && 0 <= cs[k].col < j
  {
    if j == 0 then []
    else ConflictsInRow(b, r, j - 1) + if Conflicting(b, r, j - 1) then [Conflict(r, j - 1, b[r][j - 1])] else []
  }

  /** The conflicts the scan records in rows 0..i-1, in row-major order. */
  function ConflictsInRows(b: Board, i: int): (cs: seq<Conflict>)
    requires IsBoard(b) && 0 <= i <= GRID_SIZE
    ensures forall k :: 0 <= k < |cs| ==> 0 <= cs[k].row < GRID_SIZE && 0 <= cs[k].col < GRID_SIZE
  {
    if i == 0 then [] else ConflictsInRows(b, i - 1) + ConflictsInRow(b, i - 1, GRID_SIZE)
  }

  /** Some entry of the list names cell (r, c). */
  ghost predicate Listed(cs: seq<Conflict>, r: int, c: int) {
    exists k :: 0 <= k < |cs| && cs[k].row == r && cs[k].col == c
  }

  lemma ListedAppend(xs: seq<Conflict>, ys: seq<Conflict>, r: int, c: int)
    ensures Listed(xs + ys, r, c) <==> Listed(xs, r, c) || Listed(ys, r, c)
  {
    var zs := xs + ys;
    if Listed(zs, r, c) {
      var k :| 0 <= k < |zs| && zs[k].row == r && zs[k].col == c;
      if k >= |xs| {
        assert ys[k - |xs|] == zs[k];
      }
    }
    if Listed(ys, r, c) {
      var k :| 0 <= k < |ys| && ys[k].row == r && ys[k].col == c;
      assert zs[k + |xs|] == ys[k];
    }
    if Listed(xs, r, c) {
      var k :| 0 <= k < |xs| && xs[k].row == r && xs[k].col == c;
      assert zs[k] == xs[k];
    }
  }

  /** The scan of row r0 up to column j lists exactly the conflicting cells there. */
  lemma {:induction false} ListedInRow(b: Board, r0: int, j: int, r: int, c: int)
    requires IsBoard(b) && 0 <= r0 < GRID_SIZE && 0 <= j <= GRID_SIZE
    requires 0 <= r < GRID_SIZE && 0 <= c < GRID_SIZE
    ensures Listed(ConflictsInRow(b, r0, j), r, c) <==> r == r0 && c < j && Conflicting(b, r, c)
  {
    if j > 0 {
      var x := if Conflicting(b, r0, j - 1) then [Conflict(r0, j - 1, b[r0][j - 1])] else [];
      ListedInRow(b, r0, j - 1, r, c);
      ListedAppend(ConflictsInRow(b, r0, j - 1), x, r, c);
      ListedOne(Conflict(r0, j - 1, b[r0][j - 1]), r, c);
    }
  }

  /** A one-entry list names exactly its entry's cell, and the empty list names none. */
  lemma ListedOne(x: Conflict, r: int, c: int)
    ensures Listed([x], r, c) <==> x.row == r && x.col == c
    ensures !Listed([], r, c)
  {
    if x.row == r && x.col == c {
      assert [x][0] == x;
    }
  }

  /** The scan of rows 0..i-1 lists a cell exactly when the scan of its own row,
      one of rows 0..i-1, lists it. */
  lemma {:induction false} ListedInRows(b: Board, i: int, r: int, c: int)
    requires IsBoard(b) && 0 <= i <= GRID_SIZE
    requires 0 <= r < GRID_SIZE && 0 <= c < GRID_SIZE
    ensures Listed(ConflictsInRows(b, i), r, c) <==> r < i && Listed(ConflictsInRow(b, r, GRID_SIZE), r, c)
  {
    if i > 0 {
      var last := ConflictsInRow(b, i - 1, GRID_SIZE);
      ListedInRows(b, i - 1, r, c);
      ListedAppend(ConflictsInRows(b, i - 1), last, r, c);
      if Listed(last, r, c) {
        var k :| 0 <= k < |last| && last[k].row == r && last[k].col == c;
      }
    }
  }

  /** The grid after setting the cell of each listed conflict to 0, in order. */
  function ZeroAll(b: Board, cs: seq<Conflict>): (b': Board)
    requires IsBoard(b)
    requires forall k :: 0 <= k < |cs| ==> 0 <= cs[k].row < GRID_SIZE && 0 <= cs[k].col < GRID_SIZE
    ensures IsBoard(b')
  {
    if cs == [] then b
    else
      var last := cs[|cs| - 1];
      Update(ZeroAll(b, cs[..|cs| - 1]), last.row, last.col, 0)
  }

  /** Emptying the listed cells empties exactly the listed cells. */
  lemma {:induction false} ZeroAllCells(b: Board, cs: seq<Conflict>, r: int, c: int)
    requires IsBoard(b) && 0 <= r < GRID_SIZE && 0 <= c < GRID_SIZE
    requires forall k :: 0 <= k < |cs| ==> 0 <= cs[k].row < GRID_SIZE && 0 <= cs[k].col < GRID_SIZE
    decreases |cs|
    ensures ZeroAll(b, cs)[r][c] == if Listed(cs, r, c) then 0 else b[r][c]
  {
    if cs != [] {
      var init, last := cs[..|cs| - 1], cs[|cs| - 1];
      ZeroAllCells(b, init, r, c);
      assert cs == init + [last];
      ListedAppend(init, [last], r, c);
      if Listed([last], r, c) {
        var k :| 0 <= k < 1 && [last][k].row == r && [last][k].col == c;
      }
    }
  }

  /** Applying the whole scan's list is the repair. */
  lemma ZeroAllIsRepair(b: Board)
    requires IsBoard(b)
    ensures ZeroAll(b, ConflictsInRows(b, GRID_SIZE)) == Repaired(b)
  {
    var cs := ConflictsInRows(b, GRID_SIZE);
    forall r, c | 0 <= r < GRID_SIZE && 0 <= c < GRID_SIZE
      ensures ZeroAll(b, cs)[r][c] == Repaired(b)[r][c]
    {
      ZeroAllCells(b, cs, r, c);
      ListedInRows(b, GRID_SIZE, r, c);
      ListedInRow(b, r, GRID_SIZE, r, c);
    }
    BoardExt(ZeroAll(b, cs), Repaired(b));
  }

  // ---------------------------------------------------------------------------
  // isValidSudokuGrid
  // ---------------------------------------------------------------------------

  /** The scratch copy of a well-formed grid (the source's `tempGrid`). */
  method CopyRows(grid: array<RawRow>) returns (temp: array2<int>)
    requires WellFormed(grid[..])
    ensures fresh(temp) && IsGrid(temp) && Snap(temp) == ToBoard(grid[..])
  {
    temp := new int[GRID_SIZE, GRID_SIZE];
    var i := 0;
    while i < GRID_SIZE
      invariant 0 <= i <= GRID_SIZE
      invariant forall r, c :: 0 <= r < i && 0 <= c < GRID_SIZE ==> temp[r, c] == grid[r].entries[c].value
    {
      var j := 0;
      while j < GRID_SIZE
        invariant 0 <= j <= GRID_SIZE
        invariant forall r, c :: 0 <= r < i && 0 <= c < GRID_SIZE ==> temp[r, c] == grid[r].entries[c].value
        invariant forall c :: 0 <= c < j ==> temp[i, c] == grid[i].entries[c].value
      {
        temp[i, j] := grid[i].entries[j].value;
        j := j + 1;
      }
      i := i + 1;
    }
    SnapCells(temp);
    BoardExt(Snap(temp), ToBoard(grid[..]));
  }

  /** The shape and range check of isValidSudokuGrid, row by row. */
  method CheckShape(grid: array?<RawRow>) returns (ok: bool)
    ensures ok <==> grid != null && WellFormed(grid[..])
  {
    if grid == null || grid.Length != GRID_SIZE {
      return false;
    }
    var i := 0;
    while i < GRID_SIZE
      invariant 0 <= i <= GRID_SIZE
      invariant forall k :: 0 <= k < i ==> RowWellFormed(grid[k])
    {
      if !grid[i].Row? || |grid[i].entries| != GRID_SIZE {
        return false;
      }
      var j := 0;
      while j < GRID_SIZE
        invariant 0 <= j <= GRID_SIZE
        invariant forall l :: 0 <= l < j ==> EntryInRange(grid[i].entries[l])
      {
        var num := grid[i].entries[j];
        if !num.Int? || num.value < 0 || num.value > GRID_SIZE {
          return false;
        }
        j := j + 1;
      }
      i := i + 1;
    }
    return true;
  }

  /** The conflict scan: each non-zero cell of the scratch copy is emptied, its
      value tested with IsValid, and the cell restored. */
  method FindConflicts(temp: array2<int>) returns (conflicts: seq<Conflict>)
    requires IsGrid(temp)
    modifies temp
    ensures Snap(temp) == old(Snap(temp))
    ensures conflicts == ConflictsInRows(old(Snap(temp)), GRID_SIZE)
  {
    ghost var b := Snap(temp);
    conflicts := [];
    var i := 0;
    while i < GRID_SIZE
      invariant 0 <= i <= GRID_SIZE
      invariant Snap(temp) == b
      invariant conflicts == ConflictsInRows(b, i)
    {
      var j := 0;
      while j < GRID_SIZE
        invariant 0 <= j <= GRID_SIZE
        invariant Snap(temp) == b
        invariant conflicts == ConflictsInRows(b, i) + ConflictsInRow(b, i, j)
      {
        SnapCells(temp);
        var num := temp[i, j];
        if num != 0 {
          temp[i, j] := 0;
          SnapCells(temp);
          BoardExt(Snap(temp), Update(b, i, j, 0));
          if !IsValid(Snap(temp), i, j, num) {
            conflicts := conflicts + [Conflict(i, j, num)];
          }
          temp[i, j] := num;
          SnapCells(temp);
          BoardExt(Snap(temp), b);
        }
        j := j + 1;
      }
      i := i + 1;
    }
  }

  /** The repair step: sets the cell of each recorded conflict to 0 in the caller's grid. */
  method ZeroConflicts(grid: array<RawRow>, conflicts: seq<Conflict>)
    requires WellFormed(grid[..])
    requires forall k :: 0 <= k < |conflicts| ==> 0 <= conflicts[k].row < GRID_SIZE && 0 <= conflicts[k].col < GRID_SIZE
    modifies grid
    ensures WellFormed(grid[..]) && ToBoard(grid[..]) == ZeroAll(ToBoard(old(grid[..])), conflicts)
  {
    ghost var b := ToBoard(grid[..]);
    var k := 0;
    while k < |conflicts|
      invariant 0 <= k <= |conflicts|
      invariant WellFormed(grid[..])
      invariant ToBoard(grid[..]) == ZeroAll(b, conflicts[..k])
    {
      var conflict := conflicts[k];
      grid[conflict.row] := Row(grid[conflict.row].entries[conflict.col := Int(0)]);
      assert conflicts[..k + 1][..k] == conflicts[..k];
      BoardExt(ToBoard(grid[..]), ZeroAll(b, conflicts[..k + 1]));
      k := k + 1;
    }
    assert conflicts[..|conflicts|] == conflicts;
  }

  /**
   * isValidSudokuGrid: false, with the grid untouched, unless the grid is nine
   * rows of nine integers in 0..9; otherwise true, with every conflicting cell of
   * the caller's grid set to 0.
   */
  method IsValidSudokuGrid(grid: array?<RawRow>) returns (ok: bool)
    modifies grid
    ensures ok <==> grid != null && WellFormed(old(grid[..]))
    ensures grid != null && !ok ==> grid[..] == old(grid[..])
    ensures ok ==> WellFormed(grid[..]) && ToBoard(grid[..]) == Repaired(ToBoard(old(grid[..])))
  {
    ok := CheckShape(grid);
    if !ok {
      return;
    }
    ghost var b := ToBoard(grid[..]);
    var temp := CopyRows(grid);
    var conflicts := FindConflicts(temp);
    if |conflicts| > 0 {
      ZeroConflicts(grid, conflicts);
    }
    ZeroAllIsRepair(b);
  }
}
