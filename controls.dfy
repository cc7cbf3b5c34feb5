/**
 * The keyboard rule: each arrow key asks for a new direction, and the
 * request is kept only if it does not point straight back along the current
 * direction. Requests are collected in the snake's one-slot pending
 * direction, so a later key overwrites an earlier one.
 */
module Controls {

  import opened Wrappers
  import opened Grid
  import opened SnakeModel

  /** A key-down event: an arrow key, or any other key (ignored). */
  datatype Key = Arrow(dir: Direction) | OtherKey

  /** The key is an arrow that does not reverse the current direction. */
  predicate Accepts(current: Direction, key: Key) {
    key.Arrow? && key.dir != Opposite(current)
  }

  /** The pending direction after the keys of one tick, taken in order, starting from `pending`. */
  function Requested(current: Direction, pending: Option<Direction>, keys: seq<Key>): Option<Direction>
    decreases |keys|
  {
    if keys == [] then pending
    else
      var before := Requested(current, pending, keys[..|keys| - 1]);
      var key := keys[|keys| - 1];
      if Accepts(current, key) then Some(key.dir) else before
  }

  /** The keys never make a reversal pending: the slot keeps its old value or holds a non-reversing direction. */
  lemma {:induction false} RequestedNeverReverses(current: Direction, pending: Option<Direction>, keys: seq<Key>)
    ensures var r := Requested(current, pending, keys);
      r == pending || (r.Some? && r.value != Opposite(current))
    decreases |keys|
  {
    if keys != [] {
      RequestedNeverReverses(current, pending, keys[..|keys| - 1]);
    }
  }

  /** When no key is accepted, the pending direction is left as it was. */
  lemma {:induction false} RequestedIgnoresRejected(current: Direction, pending: Option<Direction>, keys: seq<Key>)
    requires forall k :: 0 <= k < |keys| ==> !Accepts(current, keys[k])
    ensures Requested(current, pending, keys) == pending
    decreases |keys|
  {
    if keys != [] {
      RequestedIgnoresRejected(current, pending, keys[..|keys| - 1]);
    }
  }

  /** The last accepted key decides: keys after it that are rejected do not matter, and earlier ones are overwritten. */
  lemma {:induction false} RequestedLastAcceptedWins(current: Direction, pending: Option<Direction>, keys: seq<Key>, i: nat)
    requires i < |keys| && Accepts(current, keys[i])
    requires forall k :: i < k < |keys| ==> !Accepts(current, keys[k])
    ensures Requested(current, pending, keys) == Some(keys[i].dir)
    decreases |keys|
  {
    if i < |keys| - 1 {
      RequestedLastAcceptedWins(current, pending, keys[..|keys| - 1], i);
    }
  }

  /** A key that would reverse the snake leaves the pending direction unchanged. */
  lemma ReversingKeyIgnored(current: Direction, pending: Option<Direction>, keys: seq<Key>)
    ensures Requested(current, pending, keys + [Arrow(Opposite(current))]) == Requested(current, pending, keys)
  {
    assert (keys + [Arrow(Opposite(current))])[..|keys|] == keys;
  }

  /**
   * Starting a tick with nothing pending, the direction committed after the
   * keys is never the reverse of the direction before them.
   */
  lemma CommitNeverReverses(s: SnakeState, keys: seq<Key>)
    requires s.nextDirection.None?
    ensures DirectionUpdated(s.(nextDirection := Requested(s.direction, s.nextDirection, keys))).direction
            != Opposite(s.direction)
  {
    RequestedNeverReverses(s.direction, s.nextDirection, keys);
  }

  /** Drain the key events of one tick into the snake's pending direction. */
  method HandleKeys(snake: Snake, keys: seq<Key>)
    modifies snake`nextDirection
    ensures snake.nextDirection == Requested(snake.direction, old(snake.nextDirection), keys)
  {
    for i := 0 to |keys|
      invariant snake.nextDirection == Requested(snake.direction, old(snake.nextDirection), keys[..i])
    {
      var key := keys[i];
      if key == Arrow(Up) && snake.direction != Down {
        snake.nextDirection := Some(Up);
      } else if key == Arrow(Down) && snake.direction != Up {
        snake.nextDirection := Some(Down);
      } else if key == Arrow(Left) && snake.direction != Right {
        snake.nextDirection := Some(Left);
      } else if key == Arrow(Right) && snake.direction != Left {
        snake.nextDirection := Some(Right);
      }
      assert keys[..i + 1][..i] == keys[..i];
    }
    assert keys[..|keys|] == keys;
  }
}
