/** Keyboard routing: arrow keys and WASD (either case) request a direction for
    the next tick, unless it would reverse the direction last committed. */
module InputRouter {
  import opened Grid

  datatype Option<T> = None | Some(value: T)

  /** The direction a key names, if any. */
  function KeyDirection(k: string): Option<Direction>
  {
    if k == "ArrowLeft" || k == "a" || k == "A" then Some(Left)
    else if k == "ArrowRight" || k == "d" || k == "D" then Some(Right)
    else if k == "ArrowUp" || k == "w" || k == "W" then Some(Up)
    else if k == "ArrowDown" || k == "s" || k == "S" then Some(Down)
    else None
  }

  /** The buffered direction after key `k`, given the committed `direction` and
      the buffered `next`. The guards compare against `direction`, not `next`. */
  function AfterKey(direction: Direction, next: Direction, k: string): (r: Direction)
    ensures r == next || r != Opposite(direction)
    ensures KeyDirection(k).None? ==> r == next
    ensures KeyDirection(k) == Some(Opposite(direction)) ==> r == next
    ensures KeyDirection(k).Some? && KeyDirection(k).value != Opposite(direction) ==>
      r == KeyDirection(k).value
  {
    if (k == "ArrowLeft" || k == "a" || k == "A") && direction != Right then Left
    else if (k == "ArrowRight" || k == "d" || k == "D") && direction != Left then Right
    else if (k == "ArrowUp" || k == "w" || k == "W") && direction != Down then Up
    else if (k == "ArrowDown" || k == "s" || k == "S") && direction != Up then Down
    else next
  }

  /** The buffered direction after a burst of keys between two ticks. */
  function AfterKeys(direction: Direction, next: Direction, keys: seq<string>): Direction
    decreases |keys|
  {
    if keys == [] then next
    else AfterKeys(direction, AfterKey(direction, next, keys[0]), keys[1..])
  }

  /** However many keys arrive between two ticks, the buffered direction never
      becomes the reverse of the committed one, so the next commit cannot turn
      the snake back onto itself. */
  lemma {:induction false} KeysNeverReverse(direction: Direction, next: Direction, keys: seq<string>)
    requires next != Opposite(direction)
    ensures AfterKeys(direction, next, keys) != Opposite(direction)
    decreases |keys|
  {
    if keys != [] {
      KeysNeverReverse(direction, AfterKey(direction, next, keys[0]), keys[1..]);
    }
  }

  /** After a burst of keys the buffer holds either what it held before or a
      direction that one of the keys named and that does not reverse the snake. */
  lemma {:induction false} BufferedFromKeys(direction: Direction, next: Direction, keys: seq<string>)
    ensures var r := AfterKeys(direction, next, keys);
      r == next ||
      exists i :: 0 <= i < |keys| && KeyDirection(keys[i]) == Some(r) && r != Opposite(direction)
    decreases |keys|
  {
    if keys != [] {
      var n1 := AfterKey(direction, next, keys[0]);
      BufferedFromKeys(direction, n1, keys[1..]);
      var r := AfterKeys(direction, n1, keys[1..]);
      if r != n1 {
        var i :| 0 <= i < |keys[1..]| && KeyDirection(keys[1..][i]) == Some(r) && r != Opposite(direction);
        assert keys[i + 1] == keys[1..][i];
      } else if n1 != next {
        assert KeyDirection(keys[0]) == Some(n1);
      }
    }
  }
}
