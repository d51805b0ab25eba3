/** The dock map the crane moves across: a rectangular table of cells, each
    either a building (never entered) or open ground holding some cranes. */
module Grids {

  /** One dock cell. */
  datatype Cell = Building | Open(cranes: nat)

  /** A cell coordinate; rows grow southwards, columns eastwards. */
  datatype Coord = Coord(row: nat, col: nat)

  /** A rows x columns grid; `cells[r][c]` is the cell in row r, column c. */
  datatype Grid = Grid(rows: nat, columns: nat, cells: seq<seq<Cell>>) {

    /** The table really is rows x columns. */
    predicate WellFormed() {
      |cells| == rows && forall r :: 0 <= r < rows ==> |cells[r]| == columns
    }

    predicate InBounds(at: Coord) {
      at.row < rows && at.col < columns
    }

    /** `get(r, c)`: looking outside the grid is a caller error. */
    function Get(r: nat, c: nat): Cell
      requires WellFormed() && r < rows && c < columns
    {
      cells[r][c]
    }

    /** The crane may stand on `at`: it is on the grid and not a building. */
    predicate IsOpen(at: Coord)
      requires WellFormed()
    {
      InBounds(at) && Get(at.row, at.col).Open?
    }

    /** The cranes picked up on `at`; buildings and off-grid cells give none. */
    function ValueAt(at: Coord): nat
      requires WellFormed()
    {
      if IsOpen(at) then Get(at.row, at.col).cranes else 0
    }
  }
}
