/**
 * The playing field: screen and cell sizes, grid cells in pixel units, the
 * four directions, and the one-cell step that wraps around the screen edges
 * (the field is a torus).
 */
module Grid {

  const SCREEN_WIDTH: int := 640
  const SCREEN_HEIGHT: int := 480
  const GRID_SIZE: int := 20
  const GRID_WIDTH: int := SCREEN_WIDTH / GRID_SIZE
  const GRID_HEIGHT: int := SCREEN_HEIGHT / GRID_SIZE
  const INITIAL_POSITION_X: int := SCREEN_WIDTH / 2
  const INITIAL_POSITION_Y: int := SCREEN_HEIGHT / 2

  /** A cell, given by the pixel coordinates of its top-left corner. */
  datatype Cell = Cell(x: int, y: int)

  /** The centre of the screen, where a new snake starts. */
  const INITIAL_CELL: Cell := Cell(INITIAL_POSITION_X, INITIAL_POSITION_Y)

  datatype Direction = Up | Down | Left | Right

  /** Horizontal component of a direction's unit vector (screen y grows downwards). */
  function DeltaX(d: Direction): int {
    match d
    case Left => -1
    case Right => 1
    case _ => 0
  }

  /** Vertical component of a direction's unit vector. */
  function DeltaY(d: Direction): int {
    match d
    case Up => -1
    case Down => 1
    case _ => 0
  }

  /** The direction pointing the exact other way: its unit vector is the negated one. */
  function Opposite(d: Direction): (r: Direction)
    ensures DeltaX(r) == -DeltaX(d) && DeltaY(r) == -DeltaY(d)
    ensures r != d
  {
    match d
    case Up => Down
    case Down => Up
    case Left => Right
    case Right => Left
  }

  /** Turning round twice faces the original way. */
  lemma OppositeInvolutive(d: Direction)
    ensures Opposite(Opposite(d)) == d
  {
  }

  /** Inside the screen. */
  predicate InBounds(c: Cell) {
    0 <= c.x < SCREEN_WIDTH && 0 <= c.y < SCREEN_HEIGHT
  }

  /** Both coordinates are multiples of the cell size. */
  predicate Aligned(c: Cell) {
    c.x % GRID_SIZE == 0 && c.y % GRID_SIZE == 0
  }

  /** A cell the game can draw: inside the screen and on the grid. */
  predicate OnGrid(c: Cell) {
    InBounds(c) && Aligned(c)
  }

  /**
   * The cell one step from `c` in direction `d`, each axis reduced modulo
   * the screen extent. The screen extents are positive, so Python's
   * floor-rounded remainder and Dafny's Euclidean one coincide.
   */
  function Step(c: Cell, d: Direction): (r: Cell)
    ensures InBounds(r)
    ensures (r.x - (c.x + DeltaX(d) * GRID_SIZE)) % SCREEN_WIDTH == 0
    ensures (r.y - (c.y + DeltaY(d) * GRID_SIZE)) % SCREEN_HEIGHT == 0
  {
    Cell((c.x + DeltaX(d) * GRID_SIZE) % SCREEN_WIDTH,
         (c.y + DeltaY(d) * GRID_SIZE) % SCREEN_HEIGHT)
  }

  /** Reducing modulo a multiple of the cell size keeps the remainder by the cell size. */
  lemma ModKeepsAlignment(a: int, extent: int)
    requires extent > 0 && extent % GRID_SIZE == 0
    ensures (a % extent) % GRID_SIZE == a % GRID_SIZE
  {
    var k := extent / GRID_SIZE;
    var q := a / extent;
    assert a == extent * q + a % extent;
    assert extent * q == GRID_SIZE * (k * q);
  }

  /** Adding a unit step of one cell to an aligned coordinate keeps it aligned. */
  lemma AddStepKeepsAlignment(a: int, delta: int)
    requires a % GRID_SIZE == 0 && -1 <= delta <= 1
    ensures (a + delta * GRID_SIZE) % GRID_SIZE == 0
  {
    if delta == 1 {
      assert a + delta * GRID_SIZE == a + 20;
    } else if delta == -1 {
      assert a + delta * GRID_SIZE == a - 20;
    } else {
      assert a + delta * GRID_SIZE == a;
    }
  }

  /** A step keeps a cell on the grid, because the screen extents are multiples of the cell size. */
  lemma StepKeepsAlignment(c: Cell, d: Direction)
    requires Aligned(c)
    ensures OnGrid(Step(c, d))
  {
    var x, y := c.x + DeltaX(d) * GRID_SIZE, c.y + DeltaY(d) * GRID_SIZE;
    AddStepKeepsAlignment(c.x, DeltaX(d));
    AddStepKeepsAlignment(c.y, DeltaY(d));
    ModKeepsAlignment(x, SCREEN_WIDTH);
    ModKeepsAlignment(y, SCREEN_HEIGHT);
    assert Step(c, d) == Cell(x % SCREEN_WIDTH, y % SCREEN_HEIGHT);
  }

  /** Away from the edges a step is plain vector addition: nothing wraps. */
  lemma StepInside(c: Cell, d: Direction)
    requires InBounds(Cell(c.x + DeltaX(d) * GRID_SIZE, c.y + DeltaY(d) * GRID_SIZE))
    ensures Step(c, d) == Cell(c.x + DeltaX(d) * GRID_SIZE, c.y + DeltaY(d) * GRID_SIZE)
  {
  }

  /**
   * Leaving the screen across an edge re-enters at the opposite edge: right
   * of the last column is column 0, above row 0 is the last row, and the
   * other two edges likewise; the other coordinate is kept.
   */
  lemma StepWrapsAtEdges(c: Cell)
    requires InBounds(c)
    ensures c.x == SCREEN_WIDTH - GRID_SIZE ==> Step(c, Right) == Cell(0, c.y)
    ensures c.x == 0 ==> Step(c, Left) == Cell(SCREEN_WIDTH - GRID_SIZE, c.y)
    ensures c.y == 0 ==> Step(c, Up) == Cell(c.x, SCREEN_HEIGHT - GRID_SIZE)
    ensures c.y == SCREEN_HEIGHT - GRID_SIZE ==> Step(c, Down) == Cell(c.x, 0)
  {
  }

  /** Stepping back the opposite way undoes a step on the screen. */
  lemma StepThenOpposite(c: Cell, d: Direction)
    requires InBounds(c)
    ensures Step(Step(c, d), Opposite(d)) == c
  {
  }

  /** A column index as drawn for the apple: 0 to GRID_WIDTH - 1 inclusive. */
  type Column = i: int | 0 <= i < GRID_WIDTH

  /** A row index as drawn for the apple: 0 to GRID_HEIGHT - 1 inclusive. */
  type Row = j: int | 0 <= j < GRID_HEIGHT

  /** The cell at a column and row of the grid. */
  function GridCell(col: Column, row: Row): (c: Cell)
    ensures OnGrid(c)
    ensures c.x / GRID_SIZE == col && c.y / GRID_SIZE == row
  {
    Cell(col * GRID_SIZE, row * GRID_SIZE)
  }

  /** Every cell on the grid is the cell of its own column and row, so the grid cells are exactly the on-grid cells. */
  lemma GridCellCoversGrid(c: Cell)
    requires OnGrid(c)
    ensures 0 <= c.x / GRID_SIZE < GRID_WIDTH && 0 <= c.y / GRID_SIZE < GRID_HEIGHT
    ensures GridCell(c.x / GRID_SIZE, c.y / GRID_SIZE) == c
  {
  }

  /** Distinct columns or rows give distinct cells. */
  lemma GridCellInjective(col: Column, row: Row, col': Column, row': Row)
    requires GridCell(col, row) == GridCell(col', row')
    ensures col == col' && row == row'
  {
    assert GridCell(col, row).x / GRID_SIZE == col;
    assert GridCell(col', row').x / GRID_SIZE == col';
  }
}
