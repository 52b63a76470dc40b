/** The board of the snake game: integer cells, the four headings and a
    one-cell move. Screen coordinates are used, so `y` grows downwards. */
module Grid {

  /** Number of cells along each side of the square board. */
  const GridSize: int := 20

  /** One board position. Coordinates are unbounded integers: a head that
      walks off the board is still a cell, it just is not `InGrid`. */
  datatype Cell = Cell(x: int, y: int)

  /** True when `c` lies on the board, `[0, GridSize) x [0, GridSize)`. */
  predicate InGrid(c: Cell) {
    0 <= c.x < GridSize && 0 <= c.y < GridSize
  }

  /** A cell on the board: what the random food generator can produce. */
  type GridCell = c: Cell | InGrid(c) witness Cell(0, 0)

  /** True when `a` and `b` differ by exactly one unit along one axis. */
  predicate Adjacent(a: Cell, b: Cell) {
    (a.x == b.x && (a.y - b.y == 1 || b.y - a.y == 1))
    || (a.y == b.y && (a.x - b.x == 1 || b.x - a.x == 1))
  }

  datatype Direction = Up | Down | Left | Right

  /** The heading that points straight back. */
  function Opposite(d: Direction): (r: Direction)
    ensures r != d
  {
    match d
    case Up => Down
    case Down => Up
    case Left => Right
    case Right => Left
  }

  /** The cell one unit away from `c` in heading `d`. */
  function Move(c: Cell, d: Direction): (r: Cell)
    ensures Adjacent(c, r)
    ensures d == Up <==> r.y < c.y
    ensures d == Down <==> r.y > c.y
    ensures d == Left <==> r.x < c.x
    ensures d == Right <==> r.x > c.x
  {
    match d
    case Up => Cell(c.x, c.y - 1)
    case Down => Cell(c.x, c.y + 1)
    case Left => Cell(c.x - 1, c.y)
    case Right => Cell(c.x + 1, c.y)
  }

  /** Moving back along the opposite heading undoes a move: the only way a
      single step can land on the cell it came from. */
  lemma MoveUndo(c: Cell, d: Direction, e: Direction)
    ensures Move(Move(c, d), e) == c <==> e == Opposite(d)
  {
  }
}
