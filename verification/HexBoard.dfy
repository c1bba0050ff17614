/** The nine by nine hexagonal board and the steps of the cat on it. */
module HexBoards {
  import opened Basics

  const BOARD_SIZE_COL := 9
  const BOARD_SIZE_ROW := 9
  const MAX_MOVEMENT := 6
  const MAX_DISTANCE := BOARD_SIZE_COL * BOARD_SIZE_ROW + 50

  datatype Cell = Cell(col: int, row: int)

  predicate OnBoard(c: Cell)
  {
    0 <= c.col < BOARD_SIZE_COL && 0 <= c.row < BOARD_SIZE_ROW
  }

  /** A cell that can be walled or entered. */
  predicate Unoccupied(walls: set<Cell>, cat: Cell, c: Cell)
  {
    OnBoard(c) && c !in walls && c != cat
  }

  /** The offsets of the six neighbours; they differ between even and odd rows. */
  function Offset(odd: bool, way: int): Cell
    requires 0 <= way < MAX_MOVEMENT
  {
    if odd
    then [Cell(0, -1), Cell(1, -1), Cell(-1, 0), Cell(1, 0), Cell(0, 1), Cell(1, 1)][way]
    else [Cell(-1, -1), Cell(0, -1), Cell(-1, 0), Cell(1, 0), Cell(-1, 1), Cell(0, 1)][way]
  }

  function Step(c: Cell, way: int): Cell
    requires 0 <= way < MAX_MOVEMENT
  {
    var d := Offset(c.row % 2 == 1, way);
    Cell(c.col + d.col, c.row + d.row)
  }

  predicate Neighbours(a: Cell, b: Cell)
  {
    exists way | 0 <= way < MAX_MOVEMENT :: Step(a, way) == b
  }

  /** The board in half columns: odd rows are shifted by one of them. */
  function Across(c: Cell): int
  {
    2 * c.col + c.row % 2
  }

  /** The neighbours of a cell are the two beside it in its row, and the four in the rows above and
      below that are shifted from it by half a column. */
  lemma NeighboursTouch(a: Cell, b: Cell)
    ensures Neighbours(a, b) <==>
      || (a.row == b.row && Abs(Across(a) - Across(b)) == 2)
      || (Abs(a.row - b.row) == 1 && Abs(Across(a) - Across(b)) == 1)
  {
    if a.row == b.row && Abs(Across(a) - Across(b)) == 2 {
      assert Step(a, if b.col < a.col then 2 else 3) == b;
    }
    if Abs(a.row - b.row) == 1 && Abs(Across(a) - Across(b)) == 1 {
      var left := Across(b) < Across(a);
      assert Step(a, if b.row < a.row then (if left then 0 else 1) else if left then 4 else 5) == b;
    }
  }

  lemma NeighboursBothWays(a: Cell, b: Cell)
    ensures Neighbours(a, b) <==> Neighbours(b, a)
  {
    NeighboursTouch(a, b);
    NeighboursTouch(b, a);
  }

  /** The number of rows or columns between a cell and the nearest edge. */
  function EdgeDistance(c: Cell): int
  {
    Min(Min(c.col, BOARD_SIZE_COL - c.col - 1), Min(c.row, BOARD_SIZE_ROW - c.row - 1))
  }

  /** A step changes the distance to the edge by at most one. */
  lemma StepNearEdge(a: Cell, way: int)
    requires 0 <= way < MAX_MOVEMENT
    ensures -1 <= EdgeDistance(Step(a, way)) - EdgeDistance(a) <= 1
  {
    var d := Offset(a.row % 2 == 1, way);
    assert -1 <= d.col <= 1 && -1 <= d.row <= 1;
  }
}
