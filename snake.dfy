/**
 * The snake: its state as a value, the transitions the game applies to that
 * state, the properties of those transitions, and the `Snake` object whose
 * methods update its fields in place by those transitions.
 */
module SnakeModel {

  import opened Wrappers
  import opened Grid

  /**
   * Everything a snake holds. `positions` lists the occupied cells, head
   * first; `length` is the target length; `nextDirection` is the one-slot
   * request from the keyboard; `last` is the tail cell most recently dropped;
   * `position` is the cell the snake was created on, the cell a reset
   * returns to.
   */
  datatype SnakeState = SnakeState(
    position: Cell,
    positions: seq<Cell>,
    length: int,
    direction: Direction,
    nextDirection: Option<Direction>,
    last: Option<Cell>)

  /** A new snake: one cell at the centre of the screen, heading right. */
  const INITIAL_STATE: SnakeState :=
    SnakeState(INITIAL_CELL, [INITIAL_CELL], 1, Right, None, None)

  /** The body is never empty and never longer than the target length. */
  predicate LengthBound(s: SnakeState) {
    1 <= |s.positions| <= s.length
  }

  /** Every segment is a drawable grid cell. */
  predicate AllOnGrid(s: SnakeState) {
    forall k :: 0 <= k < |s.positions| ==> OnGrid(s.positions[k])
  }

  /** The invariant every snake keeps between operations. */
  predicate ValidState(s: SnakeState) {
    LengthBound(s) && AllOnGrid(s) && s.position == INITIAL_CELL
  }

  function Head(s: SnakeState): Cell
    requires |s.positions| >= 1
  {
    s.positions[0]
  }

  /** Commit the pending direction, if there is one, and clear the slot. */
  function DirectionUpdated(s: SnakeState): SnakeState {
    if s.nextDirection.Some? then s.(direction := s.nextDirection.value, nextDirection := None)
    else s
  }

  /**
   * One step forward: prepend the wrapped head, then drop the tail if the
   * body has outgrown the target length. `last` is written only when a
   * tail is dropped.
   */
  function Moved(s: SnakeState): SnakeState
    requires |s.positions| >= 1
  {
    var grown := [Step(Head(s), s.direction)] + s.positions;
    if |grown| > s.length then
      s.(positions := grown[..|grown| - 1], last := Some(grown[|grown| - 1]))
    else
      s.(positions := grown)
  }

  /** Eating an apple raises the target length by one. */
  function Grown(s: SnakeState): SnakeState {
    s.(length := s.length + 1)
  }

  /** Back to one cell at the creation cell, heading right, nothing pending; `last` is kept. */
  function ResetState(s: SnakeState): SnakeState {
    s.(length := 1, direction := Right, nextDirection := None, positions := [s.position])
  }

  /** The head lies on one of the other segments. */
  predicate SelfCollides(s: SnakeState)
    requires |s.positions| >= 1
  {
    Head(s) in s.positions[1..]
  }

  lemma InitialStateValid()
    ensures ValidState(INITIAL_STATE)
    ensures |INITIAL_STATE.positions| == INITIAL_STATE.length
  {
  }

  /**
   * Committing takes the pending direction if there is one and otherwise
   * changes nothing; either way the slot is empty afterwards, so a second
   * commit changes nothing.
   */
  lemma DirectionUpdatedCommits(s: SnakeState)
    ensures DirectionUpdated(s).nextDirection == None
    ensures s.nextDirection.Some? ==> DirectionUpdated(s).direction == s.nextDirection.value
    ensures s.nextDirection.None? ==> DirectionUpdated(s) == s
    ensures DirectionUpdated(s).(direction := s.direction, nextDirection := s.nextDirection) == s
    ensures DirectionUpdated(DirectionUpdated(s)) == DirectionUpdated(s)
  {
  }

  /**
   * After a move the head is the wrapped step from the old head, every other
   * segment sits where its predecessor was, the old tail is dropped and
   * recorded in `last` exactly when the body would exceed the target
   * length, and no other field changes.
   */
  lemma MovedShape(s: SnakeState)
    requires |s.positions| >= 1
    ensures var r := Moved(s);
      && |r.positions| == (if |s.positions| + 1 > s.length then |s.positions| else |s.positions| + 1)
      && r.positions[0] == Step(Head(s), s.direction)
      && (forall k :: 1 <= k < |r.positions| ==> r.positions[k] == s.positions[k - 1])
      && r.last == (if |s.positions| + 1 > s.length then Some(s.positions[|s.positions| - 1]) else s.last)
      && r.(positions := s.positions, last := s.last) == s
  {
  }

  /**
   * A move keeps the invariant: the body stays between 1 and the target
   * length and every segment stays on the grid. A body that was at most one
   * short of the target length reaches it.
   */
  lemma MovedKeepsValid(s: SnakeState)
    requires ValidState(s)
    ensures ValidState(Moved(s))
    ensures |s.positions| >= s.length - 1 ==> |Moved(s).positions| == s.length
  {
    StepKeepsAlignment(Head(s), s.direction);
    var r := Moved(s);
    forall k | 0 <= k < |r.positions|
      ensures OnGrid(r.positions[k])
    {
      MovedShape(s);
    }
  }

  /** A one-cell snake heading right from (300, 240) moves to (320, 240) and drops (300, 240). */
  lemma MoveScenario()
    ensures var s := INITIAL_STATE.(positions := [Cell(300, 240)]);
      Moved(s).positions == [Cell(320, 240)] && Moved(s).last == Some(Cell(300, 240))
  {
  }

  /** Growing keeps the length bound and changes nothing but the target length. */
  lemma GrownKeepsValid(s: SnakeState)
    requires ValidState(s)
    ensures ValidState(Grown(s))
    ensures Grown(s).length == s.length + 1 && Grown(s).(length := s.length) == s
  {
  }

  /**
   * A reset leaves one segment at the creation cell, target length 1,
   * direction right and nothing pending, keeps `last`, and is idempotent.
   */
  lemma ResetRestoresStart(s: SnakeState)
    requires s.position == INITIAL_CELL
    ensures ResetState(s) == INITIAL_STATE.(last := s.last)
    ensures ValidState(ResetState(s))
    ensures ResetState(ResetState(s)) == ResetState(s)
  {
  }

  /** The snake object, updated in place by the game each tick. */
  class Snake {
    var position: Cell
    var positions: seq<Cell>
    var length: int
    var direction: Direction
    var nextDirection: Option<Direction>
    var last: Option<Cell>

    /** The value of all fields together. */
    function State(): SnakeState
      reads this
    {
      SnakeState(position, positions, length, direction, nextDirection, last)
    }

    predicate Valid()
      reads this
    {
      ValidState(State())
    }

    constructor ()
      ensures State() == INITIAL_STATE && Valid()
    {
      position := INITIAL_CELL;
      length := 1;
      direction := Right;
      nextDirection := None;
      last := None;
      positions := [INITIAL_CELL];
    }

    method UpdateDirection()
      modifies this`direction, this`nextDirection
      ensures State() == DirectionUpdated(old(State()))
    {
      if nextDirection.Some? {
        direction := nextDirection.value;
        nextDirection := None;
      }
    }

    method Move()
      requires Valid()
      modifies this`positions, this`last
      ensures State() == Moved(old(State()))
      ensures Valid()
    {
      var head := Step(positions[0], direction);
      positions := [head] + positions;
      if |positions| > length {
        last := Some(positions[|positions| - 1]);
        positions := positions[..|positions| - 1];
      }
      MovedKeepsValid(old(State()));
    }

    method GetHeadPosition() returns (head: Cell)
      requires Valid()
      ensures head == Head(State()) && OnGrid(head)
    {
      head := positions[0];
    }

    method Reset()
      modifies this`length, this`direction, this`nextDirection, this`positions
      ensures State() == ResetState(old(State()))
      ensures position == INITIAL_CELL ==> Valid()
    {
      length := 1;
      direction := Right;
      nextDirection := None;
      positions := [position];
    }

    /** Scan the segments behind the head for one on the head's cell. */
    method HitsItself() returns (hit: bool)
      requires |positions| >= 1
      ensures hit <==> SelfCollides(State())
    {
      var head := positions[0];
      var k := 1;
      while k < |positions|
        invariant 1 <= k <= |positions|
        invariant forall m :: 1 <= m < k ==> positions[m] != head
      {
        if positions[k] == head {
          assert positions[1..][k - 1] == head;
          return true;
        }
        k := k + 1;
      }
      return false;
    }
  }
}
