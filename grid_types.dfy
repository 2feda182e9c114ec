/**
 * The cell vocabulary shared by both Minesweeper engines: the CellType and
 * CellState enumerations and the three data fields every cell carries
 * (its type, its visibility state and its degree, the number of mines
 * around it).
 */
module GridTypes {

  datatype CellType = Safe | Mine

  datatype CellState = Hidden | Revealed | Flagged

  /** A grid position: `x` is the column and `y` the row; cells are stored row first, `[y][x]`. */
  datatype Coord = Coord(x: int, y: int)

  /** A cell's data. `kind` is the source's `type` field (a reserved word in Dafny). */
  datatype Cell = Cell(kind: CellType, state: CellState, degree: nat)
  {
    /** `reveal()`: the state becomes REVEALED whatever it was; type and degree are untouched. */
    function Reveal(): (r: Cell)
      ensures r.state == Revealed && r.kind == kind && r.degree == degree
    {
      this.(state := Revealed)
    }
  }

  // The queries both engines attach to a cell (`isSafe`, `isMine`, `isHidden`, ...).
  predicate IsSafe(c: Cell) { c.kind == Safe }
  predicate IsMine(c: Cell) { c.kind == Mine }
  predicate IsHidden(c: Cell) { c.state == Hidden }
  predicate IsRevealed(c: Cell) { c.state == Revealed }
  predicate IsFlagged(c: Cell) { c.state == Flagged }

  /** A cell whose reveal by a chord ends the game. */
  predicate IsHiddenMine(c: Cell) { c.state == Hidden && c.kind == Mine }
}
