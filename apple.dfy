/** The apple: one cell, placed by two random draws and moved when eaten. */
module AppleModel {

  import opened Grid

  class Apple {
    var position: Cell

    /** A new apple starts at the centre and is at once placed by two draws. */
    constructor (col: Column, row: Row)
      ensures position == GridCell(col, row) && OnGrid(position)
    {
      position := INITIAL_CELL;
      new;
      RandomizePosition(col, row);
    }

    /**
     * Place the apple on the cell at the drawn column and row. The draws
     * range over the whole grid, and the snake plays no part in the choice.
     */
    method RandomizePosition(col: Column, row: Row)
      modifies this
      ensures position == GridCell(col, row) && OnGrid(position)
    {
      position := Cell(col * GRID_SIZE, row * GRID_SIZE);
    }
  }
}
