# Snake game state, modelled in Dafny

This project models the game logic of `the_snake.py`, a single-player snake
game on a 640 × 480 pixel screen divided into 20-pixel cells. The snake is an
ordered list of cells with the head first. Each tick the game reads the arrow
keys, commits the requested direction, and moves the snake one cell, wrapping
around the screen edges. If the head reaches the apple, the snake's target
length grows by one and the apple jumps to a random cell. If the head runs
into the snake's own body, the snake is reset.

Layout, one module per file:

- `wrappers.dfy` (`Wrappers`): the `Option` type used for "no pending direction" and "no tail dropped yet".
- `grid.dfy` (`Grid`): the constants, cells, directions, the wrapping step and the cells the apple can be drawn on.
- `snake.dfy` (`SnakeModel`): the snake's state as a value (`SnakeState`) and its transitions as functions. Their properties are lemmas. The class `Snake` has the fields of the Python class. Each of its methods updates them so that `State()` becomes the matching transition of the old state.
- `apple.dfy` (`AppleModel`): the class `Apple` and its random placement.
- `controls.dfy` (`Controls`): the arrow-key rule and `HandleKeys`, which drains one tick's key events into the snake's pending direction.
- `game.dfy` (`GameLoop`): one tick as a function `TickSpec` over a `World` (snake state plus apple cell), its properties, a run of many ticks (`Run`), and the methods `Tick` and `PlayGame`, which perform those steps on the objects.

Modelling decisions:

- The random column and row are parameters. Their types are `Column` (0 to 31) and `Row` (0 to 23), the inclusive range `randint` draws from in `the_snake.py`.
- Key events are a sequence of `Key` values: an arrow key, or any other key, which has no effect.
- Python's `%` rounds towards minus infinity and Dafny's `%` is Euclidean. The divisors here (640 and 480) are positive, so both give the same result, and `Step` uses Dafny's `%` directly.
- `next_direction` holds either `None` or a direction tuple. A non-empty tuple is always true, so `if self.next_direction` means "is not None". The model uses `Option`.
- Three behaviours of the Python code are kept as written. `move` does not clear `last` when no tail is dropped; the model keeps the old value (`MovedShape`). `reset` keeps `last`. `reset` rebuilds the body from `self.position`, which is set once in the constructor and never changed; the invariant `ValidState` records that it is the centre cell.
- The apple is drawn from every grid cell, including cells the snake occupies (`AppleMayLandOnSnake`).
- Between ticks the body length lies between `length - 1` and `length`. It equals `length` after any tick without a meal (`TickWithoutMealFillsLength`).

## Model

| member | source | states |
|---|---|---|
| Grid.Opposite | the_snake.py:138-145 | The direction the key rule rejects has the negated unit vector and differs from the current direction |
| Grid.OppositeInvolutive | the_snake.py:16-19 | Reversing a direction twice gives the original direction |
| Grid.Step | the_snake.py:113-115 | The new head is on the screen, and each coordinate is congruent to old coordinate + direction × 20, modulo the screen extent |
| Grid.StepKeepsAlignment | the_snake.py:8-9 | A grid-aligned cell stays on the screen and grid-aligned after a step, because 640 and 480 are multiples of 20 |
| Grid.StepInside | the_snake.py:113-115 | A step that stays inside the screen is plain vector addition |
| Grid.StepWrapsAtEdges | the_snake.py:113-115 | RIGHT from x = 620 gives x = 0, LEFT from x = 0 gives x = 620, UP from y = 0 gives y = 460, DOWN from y = 460 gives y = 0; the other coordinate is kept |
| Grid.StepThenOpposite | the_snake.py:113-115 | A step followed by a step the opposite way returns to the starting cell |
| Grid.GridCell | the_snake.py:64-65 | The cell for a drawn column and row is on the grid, and its column and row can be read back from it |
| Grid.GridCellCoversGrid | the_snake.py:10-11 | Every on-grid cell is the cell of some drawable column and row |
| Grid.GridCellInjective | the_snake.py:62-65 | Different draws give different cells |
| SnakeModel.DirectionUpdated | the_snake.py:90-94 | Defines the commit: a pending direction becomes the direction and the slot is cleared; otherwise the state is unchanged |
| SnakeModel.Moved | the_snake.py:111-118 | Defines a move: prepend the wrapped head, then drop the tail into `last` if the body is longer than `length` |
| SnakeModel.Grown | the_snake.py:162 | Defines growth: `length` rises by one |
| SnakeModel.ResetState | the_snake.py:124-129 | Defines a reset: length 1, direction RIGHT, nothing pending, body rebuilt from the creation cell, `last` kept |
| SnakeModel.SelfCollides | the_snake.py:170-171 | Defines a self-collision: the head equals some cell of `positions[1:]` |
| SnakeModel.InitialStateValid | the_snake.py:80-88 | A new snake satisfies the invariant, and its body has exactly the target length |
| SnakeModel.DirectionUpdatedCommits | the_snake.py:90-94 | A pending direction becomes the direction and the slot is cleared; with nothing pending nothing changes; no other field changes; committing twice is the same as once |
| SnakeModel.MovedShape | the_snake.py:111-118 | The new head is the wrapped step; each other segment takes its predecessor's old cell; the old tail is dropped and stored in `last` exactly when the body would exceed `length`; otherwise `last` and all other fields are unchanged |
| SnakeModel.MovedKeepsValid | the_snake.py:116-118 | A move keeps 1 ≤ len(positions) ≤ length and keeps every segment on the grid; a body at most one short of `length` reaches `length` |
| SnakeModel.MoveScenario | the_snake.py:111-118 | Body [(300, 240)] heading right becomes [(320, 240)], and `last` becomes (300, 240) |
| SnakeModel.GrownKeepsValid | the_snake.py:162 | `length += 1` keeps the invariant and changes nothing else |
| SnakeModel.ResetRestoresStart | the_snake.py:124-129 | A reset gives body [(320, 240)], length 1, direction RIGHT and nothing pending, keeps `last`, satisfies the invariant, and is idempotent |
| SnakeModel.Snake.constructor | the_snake.py:80-88 | A new snake has the initial state and satisfies the invariant |
| SnakeModel.Snake.UpdateDirection | the_snake.py:90-94 | Only `direction` and `next_direction` may change, and the new state is the committed one |
| SnakeModel.Snake.Move | the_snake.py:111-118 | Only `positions` and `last` may change, the new state is the moved one, and the invariant still holds |
| SnakeModel.Snake.GetHeadPosition | the_snake.py:120-122 | Returns the head, which is on the grid |
| SnakeModel.Snake.Reset | the_snake.py:124-129 | Only `length`, `direction`, `next_direction` and `positions` may change (so `last` survives); the new state is the reset one |
| SnakeModel.Snake.HitsItself | the_snake.py:170-171 | True exactly when the head equals some segment of `positions[1:]` |
| AppleModel.Apple.constructor | the_snake.py:57-60 | A new apple is placed at once at the drawn cell, which is on the grid |
| AppleModel.Apple.RandomizePosition | the_snake.py:62-65 | The apple moves to the cell at the drawn column and row, on the grid, whatever the snake occupies |
| Controls.Accepts | the_snake.py:138-145 | Defines when a key changes the pending slot: it is an arrow key that does not reverse the current direction |
| Controls.Requested | the_snake.py:134-145 | Defines the pending slot after a tick's keys, taken in order, each accepted key overwriting the slot |
| Controls.RequestedNeverReverses | the_snake.py:138-145 | After the key events, the pending slot holds its old value or a direction that does not reverse the current one |
| Controls.RequestedIgnoresRejected | the_snake.py:134-145 | If every key is rejected, the pending slot is unchanged |
| Controls.RequestedLastAcceptedWins | the_snake.py:134-145 | The last accepted key sets the pending slot; earlier keys are overwritten |
| Controls.ReversingKeyIgnored | the_snake.py:138-145 | A key that would reverse the current direction leaves the pending slot as it was |
| Controls.CommitNeverReverses | the_snake.py:157-158 | With nothing pending at the start of a tick, the direction after the keys and the commit is never the reverse of the one before |
| Controls.HandleKeys | the_snake.py:132-145 | Only `next_direction` may change, and it becomes the result of applying the key rule to each event in order |
| GameLoop.Steered | the_snake.py:157-158 | Defines the snake after the keys are read and the direction committed |
| GameLoop.Advanced | the_snake.py:157-159 | Defines the snake after the move of a tick |
| GameLoop.Fed | the_snake.py:159-163 | Defines the snake after the move and, if the head reached the apple, the growth |
| GameLoop.TickSpec | the_snake.py:157-174 | Defines one tick: keys, commit, move, eat (apple to the drawn cell), then reset on self-collision |
| GameLoop.TickKeepsInvariant | the_snake.py:157-174 | A tick keeps the invariant: body length between `length - 1` and `length`, every cell on the grid, nothing pending, apple on the grid |
| GameLoop.TickEats | the_snake.py:161-163 | If the head reaches the apple, the apple moves to the drawn on-grid cell and, unless the snake then collides, `length` rises by exactly 1; otherwise the apple and `length` stay |
| GameLoop.TickResetsOnCollision | the_snake.py:169-172 | If the head hits the body, the snake becomes [(320, 240)] with length 1, RIGHT and nothing pending; otherwise it keeps the moved body and the committed direction |
| GameLoop.TickNeverReverses | the_snake.py:157-159 | Unless the tick ends in a reset, the direction after a tick is never the reverse of the direction before it |
| GameLoop.TickWithoutMealFillsLength | the_snake.py:159-163 | After a tick without a meal, the body has exactly `length` cells |
| GameLoop.Run | the_snake.py:154-174 | Every state reached by a run of ticks from a valid state keeps the invariant |
| GameLoop.AppleMayLandOnSnake | the_snake.py:62-65 | In every state the game reaches, each cell of the snake's body is the cell of some possible draw, so the apple can land on the snake |
| GameLoop.Tick | the_snake.py:157-174 | The snake and apple end in the state `TickSpec` gives for the old state, and the snake's invariant still holds |
| GameLoop.PlayGame | the_snake.py:151-174 | After creating the snake and apple and playing the given ticks, the objects hold the state `Run` gives |

## Left out

- Window, caption, clock and frame rate (`pygame.init`, `set_mode`, `Clock`, `clock.tick`): these are calls into the graphics library.
- Drawing: every `draw` method, the erasing of the dropped tail cell, `screen.fill`, `display.update` and the colours. They only render the state and do not change it.
- Event polling: the model receives the key events as a sequence. The `QUIT` event, which calls `pygame.quit()`, is not modelled.
- The random number generator: each draw is a parameter of the allowed range.
- The endless `while True` loop: `PlayGame` and `Run` cover any finite number of ticks.
- The `GameObject` base class: it adds no behaviour. Its `position` field appears directly in `Snake` and `Apple`.
