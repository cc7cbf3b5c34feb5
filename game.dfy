/**
 * One tick of the game loop and a run of many: read the keys, commit the
 * direction, move, eat the apple if the head reached it, and reset the
 * snake if its head ran into its own body.
 */
module GameLoop {

  import opened Wrappers
  import opened Grid
  import opened SnakeModel
  import opened AppleModel
  import opened Controls

  /** The whole game state: the snake and the apple's cell. */
  datatype World = World(snake: SnakeState, apple: Cell)

  /**
   * What the outside world supplies for one tick: the key events, in order,
   * and the column and row the random source would draw if the apple is
   * eaten.
   */
  datatype TickInput = TickInput(keys: seq<Key>, col: Column, row: Row)

  /** What holds between ticks. */
  predicate GameInvariant(w: World) {
    && ValidState(w.snake)
    && w.snake.nextDirection.None?
    && |w.snake.positions| >= w.snake.length - 1
    && OnGrid(w.apple)
  }

  /** The snake once the keys are read and the direction committed. */
  function Steered(s: SnakeState, keys: seq<Key>): SnakeState {
    DirectionUpdated(s.(nextDirection := Requested(s.direction, s.nextDirection, keys)))
  }

  /** The snake after the move of a tick, before eating and collision. */
  function Advanced(s: SnakeState, keys: seq<Key>): SnakeState
    requires |s.positions| >= 1
  {
    Moved(Steered(s, keys))
  }

  /** The snake after the move and the meal, if any, before the collision check. */
  function Fed(w: World, keys: seq<Key>): SnakeState
    requires |w.snake.positions| >= 1
  {
    var moved := Advanced(w.snake, keys);
    if Head(moved) == w.apple then Grown(moved) else moved
  }

  /** One tick of the loop, in the order the game performs its steps. */
  function TickSpec(w: World, input: TickInput): World
    requires |w.snake.positions| >= 1
  {
    var moved := Advanced(w.snake, input.keys);
    var ate := Head(moved) == w.apple;
    var fed := Fed(w, input.keys);
    World(if SelfCollides(fed) then ResetState(fed) else fed,
          if ate then GridCell(input.col, input.row) else w.apple)
  }

  /** A tick keeps the invariant. */
  lemma TickKeepsInvariant(w: World, input: TickInput)
    requires GameInvariant(w)
    ensures GameInvariant(TickSpec(w, input))
  {
    var moved := Advanced(w.snake, input.keys);
    MovedKeepsValid(Steered(w.snake, input.keys));
    GrownKeepsValid(moved);
    ResetRestoresStart(Fed(w, input.keys));
  }

  /**
   * Eating: when the moved head is on the apple, the apple goes to the drawn
   * cell, which is on the grid, and unless the snake then collides its
   * target length is exactly one more; otherwise the apple stays and the
   * target length is unchanged.
   */
  lemma TickEats(w: World, input: TickInput)
    requires |w.snake.positions| >= 1
    ensures var moved := Advanced(w.snake, input.keys);
      var r := TickSpec(w, input);
      && (Head(moved) == w.apple ==> r.apple == GridCell(input.col, input.row) && OnGrid(r.apple))
      && (Head(moved) == w.apple && !SelfCollides(Fed(w, input.keys)) ==> r.snake.length == w.snake.length + 1)
      && (Head(moved) != w.apple ==> r.apple == w.apple)
      && (Head(moved) != w.apple && !SelfCollides(Fed(w, input.keys)) ==> r.snake.length == w.snake.length)
  {
  }

  /**
   * Self-collision: when the moved head lies on another segment the snake is
   * back to one cell at the centre, length 1, heading right, nothing
   * pending, with `last` as the move left it; otherwise the snake keeps the
   * committed direction and the moved body.
   */
  lemma TickResetsOnCollision(w: World, input: TickInput)
    requires |w.snake.positions| >= 1 && w.snake.position == INITIAL_CELL
    ensures var fed := Fed(w, input.keys);
      var r := TickSpec(w, input);
      && (SelfCollides(fed) ==> r.snake == INITIAL_STATE.(last := fed.last))
      && (!SelfCollides(fed) ==> r.snake.positions == Advanced(w.snake, input.keys).positions)
      && (!SelfCollides(fed) ==> r.snake.direction == Steered(w.snake, input.keys).direction)
  {
    ResetRestoresStart(Fed(w, input.keys));
  }

  /** Between ticks the snake never turns straight back, unless the tick ended in a reset. */
  lemma TickNeverReverses(w: World, input: TickInput)
    requires GameInvariant(w)
    ensures !SelfCollides(Fed(w, input.keys)) ==>
      TickSpec(w, input).snake.direction != Opposite(w.snake.direction)
  {
    CommitNeverReverses(w.snake, input.keys);
  }

  /** After a tick in which nothing was eaten, the body has exactly the target length. */
  lemma TickWithoutMealFillsLength(w: World, input: TickInput)
    requires GameInvariant(w)
    requires Head(Advanced(w.snake, input.keys)) != w.apple
    ensures |TickSpec(w, input).snake.positions| == TickSpec(w, input).snake.length
  {
    MovedKeepsValid(Steered(w.snake, input.keys));
  }

  /** The world after the given ticks, one after another; every state reached keeps the invariant. */
  function Run(w: World, inputs: seq<TickInput>): (r: World)
    requires GameInvariant(w)
    ensures GameInvariant(r)
    decreases |inputs|
  {
    if inputs == [] then w
    else
      var before := Run(w, inputs[..|inputs| - 1]);
      TickKeepsInvariant(before, inputs[|inputs| - 1]);
      TickSpec(before, inputs[|inputs| - 1])
  }

  /**
   * The apple's draw does not avoid the snake: in every state the game
   * reaches, each segment of the body is the cell of some column and row the
   * random source can draw.
   */
  lemma AppleMayLandOnSnake(w: World, k: nat)
    requires GameInvariant(w) && k < |w.snake.positions|
    ensures exists col: Column, row: Row :: GridCell(col, row) == w.snake.positions[k]
  {
    var c := w.snake.positions[k];
    GridCellCoversGrid(c);
    var col: Column, row: Row := c.x / GRID_SIZE, c.y / GRID_SIZE;
    assert GridCell(col, row) == c;
  }

  /** One tick on the snake and apple objects. */
  method Tick(snake: Snake, apple: Apple, input: TickInput)
    requires snake.Valid()
    modifies snake, apple
    ensures World(snake.State(), apple.position) == TickSpec(old(World(snake.State(), apple.position)), input)
    ensures snake.Valid()
  {
    ghost var w := World(snake.State(), apple.position);
    HandleKeys(snake, input.keys);
    snake.UpdateDirection();
    assert snake.State() == Steered(w.snake, input.keys);
    snake.Move();
    var head := snake.GetHeadPosition();
    if head == apple.position {
      snake.length := snake.length + 1;
      apple.RandomizePosition(input.col, input.row);
    }
    assert snake.State() == Fed(w, input.keys);
    var hit := snake.HitsItself();
    if hit {
      snake.Reset();
    }
  }

  /** Create the snake and the apple, then play the given ticks. */
  method PlayGame(col: Column, row: Row, inputs: seq<TickInput>) returns (snake: Snake, apple: Apple)
    ensures World(snake.State(), apple.position) == Run(World(INITIAL_STATE, GridCell(col, row)), inputs)
  {
    InitialStateValid();
    snake := new Snake();
    apple := new Apple(col, row);
    ghost var start := World(INITIAL_STATE, GridCell(col, row));
    for i := 0 to |inputs|
      invariant snake.Valid()
      invariant World(snake.State(), apple.position) == Run(start, inputs[..i])
    {
      Tick(snake, apple, inputs[i]);
      assert inputs[..i + 1][..i] == inputs[..i];
    }
    assert inputs[..|inputs|] == inputs;
  }
}
