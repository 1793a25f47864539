/** The per-tick movement rule: move the head one cell, stop on a wall or on
    the snake's own body, grow on food, otherwise advance. */
module SnakeEngine {
  import opened Grid

  datatype StepResult =
    | WallHit
    | SelfHit
    | Grew(body: seq<Cell>)
    | Advanced(body: seq<Cell>, vacated: Cell)
  {
    predicate Ends() { WallHit? || SelfHit? }
  }

  /** The cell the head moves to on this tick. */
  function NextHead(snake: seq<Cell>, dir: Direction): Cell
    requires |snake| >= 1
  {
    Offset(snake[0], dir)
  }

  /** One tick with the committed direction `dir`. The self-collision test is
      against the whole body before the move, its last segment included. */
  function Step(snake: seq<Cell>, dir: Direction, food: Cell, rows: int, cols: int): (r: StepResult)
    requires |snake| >= 1
    ensures r.Ends() <==> !InGrid(NextHead(snake, dir), rows, cols) || NextHead(snake, dir) in snake
    ensures r.Grew? <==> !r.Ends() && NextHead(snake, dir) == food
    ensures !r.Ends() ==> |r.body| >= 1 && r.body[0] == NextHead(snake, dir)
    ensures r.Grew? ==> |r.body| == |snake| + 1 && r.body[1..] == snake
    ensures r.Advanced? ==>
      |r.body| == |snake| && r.body[1..] == snake[..|snake| - 1] && r.vacated == snake[|snake| - 1]
  {
    var head := Offset(snake[0], dir);
    if !InGrid(head, rows, cols) then WallHit
    else if head in snake then SelfHit
    else if head == food then Grew([head] + snake)
    else Advanced([head] + snake[..|snake| - 1], snake[|snake| - 1])
  }

  /** Putting a new, in-grid, adjacent cell in front keeps a body well formed. */
  lemma PrependPreserves(head: Cell, rest: seq<Cell>, rows: int, cols: int)
    requires |rest| >= 1 && AllInGrid(rest, rows, cols) && Distinct(rest) && Connected(rest)
    requires InGrid(head, rows, cols) && head !in rest && Adjacent(head, rest[0])
    ensures WellFormed([head] + rest, rows, cols)
  {
    var s := [head] + rest;
    forall i, j | 0 <= i < j < |s| ensures s[i] != s[j] {
      if i == 0 {
        assert s[j] == rest[j - 1];
      } else {
        assert s[i] == rest[i - 1] && s[j] == rest[j - 1];
      }
    }
    forall i | 0 < i < |s| ensures Adjacent(s[i - 1], s[i]) {
      if i > 1 {
        assert s[i - 1] == rest[i - 2] && s[i] == rest[i - 1];
      }
    }
  }

  /** A tick that does not end the game keeps the body inside the grid, free of
      overlap and connected. On a plain move the cells occupied afterwards are
      the old ones, less the vacated tail, plus the new head. */
  lemma {:induction false} StepPreservesWellFormed(snake: seq<Cell>, dir: Direction, food: Cell, rows: int, cols: int)
    requires WellFormed(snake, rows, cols)
    ensures var r := Step(snake, dir, food, rows, cols);
      !r.Ends() ==> WellFormed(r.body, rows, cols)
    ensures var r := Step(snake, dir, food, rows, cols);
      r.Advanced? ==> forall c :: c in r.body <==> c == NextHead(snake, dir) || (c in snake && c != r.vacated)
  {
    var r := Step(snake, dir, food, rows, cols);
    var head := NextHead(snake, dir);
    OffsetIsAdjacent(snake[0], dir);
    if r.Grew? {
      assert r.body == [head] + snake;
      PrependPreserves(head, snake, rows, cols);
    } else if r.Advanced? {
      var rest := snake[..|snake| - 1];
      assert r.body == [head] + rest;
      assert rest[0] == snake[0];
      assert forall i :: 0 <= i < |rest| ==> rest[i] == snake[i];
      PrependPreserves(head, rest, rows, cols);
      forall c ensures c in r.body <==> c == head || (c in snake && c != r.vacated) {
        if c in snake && c != r.vacated {
          var i :| 0 <= i < |snake| && snake[i] == c;
          assert i < |snake| - 1;
          assert rest[i] == c;
        }
        if c in rest {
          var i :| 0 <= i < |rest| && rest[i] == c;
          assert snake[i] == c && snake[|snake| - 1] == r.vacated;
        }
      }
    }
  }

  /** The stale check: stepping onto the current last segment ends the game,
      although a plain move would have vacated that cell. */
  lemma TailCellIsSelfHit(snake: seq<Cell>, dir: Direction, food: Cell, rows: int, cols: int)
    requires |snake| >= 1 && InGrid(snake[|snake| - 1], rows, cols)
    requires NextHead(snake, dir) == snake[|snake| - 1]
    ensures Step(snake, dir, food, rows, cols) == SelfHit
  {
  }

  /** A 6-column, 8-row board: the start snake moves down one row and drops its tail. */
  lemma DownTickFromStart()
    ensures Step([Cell(2, 3), Cell(1, 3)], Down, Cell(6, 0), 8, 6)
      == Advanced([Cell(3, 3), Cell(2, 3)], Cell(1, 3))
  {
  }

  /** A head on the last row moving down hits the wall. */
  lemma DownTickIntoWall(food: Cell)
    ensures Step([Cell(7, 3), Cell(6, 3)], Down, food, 8, 6) == WallHit
  {
  }
}
