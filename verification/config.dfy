/** Constants of the game configuration and the small shared Option type. */
module Config {

  /** Side of the grid and of one box. */
  const GRID_SIZE: int := 9
  const BOX_SIZE: int := 3

  /** Number of counted failed attempts after which puzzle generation gives up. */
  const MAX_ATTEMPTS: int := 10

  /** The named difficulty tiers a caller can request. */
  datatype Difficulty = Easy | Normal | Hard

  /** Inclusive range of filled cells a generated puzzle should keep. */
  datatype CellRange = CellRange(minCells: nat, maxCells: nat)

  /** The static difficulty table: every tier is a non-empty range inside the 81 cells. */
  function Settings(d: Difficulty): (range: CellRange)
    ensures 0 < range.minCells <= range.maxCells <= GRID_SIZE * GRID_SIZE
  {
    match d
    case Easy => CellRange(35, 40)
    case Normal => CellRange(25, 30)
    case Hard => CellRange(20, 25)
  }

  /** A value that may be absent (the source's `null`). */
  datatype Option<+T> = None | Some(value: T)
}
