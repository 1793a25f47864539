/** The game session: the mutable state of one page, its lifecycle (start,
    tick, end, restart, resize), the one-second clock and the high score. */
module GameSession {
  import opened Grid
  import opened FoodPlacer
  import opened SnakeEngine
  import opened InputRouter

  /** Points for one piece of food. */
  const FOOD_POINTS: int := 10

  /** One second on the (minutes, seconds) clock; the minute count is unbounded. */
  function ClockStep(m: int, s: int): (r: (int, int))
    ensures 0 <= s < 60 ==> 0 <= r.1 < 60 && r.0 * 60 + r.1 == m * 60 + s + 1
    ensures r.0 >= m
  {
    var s1 := s + 1;
    if s1 >= 60 then (m + 1, 0) else (m, s1)
  }

  /** "00:59" becomes "01:00". */
  lemma ClockRollsOver()
    ensures ClockStep(0, 59) == (1, 0)
  {
  }

  /** The high score kept at the end of a game: the larger of the two. */
  function NewHighScore(highScore: int, score: int): (r: int)
    ensures r >= highScore && r >= score
    ensures r == highScore || r == score
  {
    if score > highScore then score else highScore
  }

  /** A score of 120 against a stored 80 becomes the new high score. */
  lemma HighScoreRaised()
    ensures NewHighScore(80, 120) == 120
  {
  }

  /** The start snake: head at a third of the height, centred, tail just above it. */
  function InitialSnake(rows: int, cols: int): seq<Cell>
  {
    [Cell(rows / 3, cols / 2), Cell(rows / 3 - 1, cols / 2)]
  }

  /** On any grid of at least the minimum size, the start snake is well formed
      and its head is directly below its tail. */
  lemma InitialSnakeWellFormed(rows: int, cols: int)
    requires rows >= MIN_ROWS && cols >= MIN_COLS
    ensures var s := InitialSnake(rows, cols);
      WellFormed(s, rows, cols) && s[0] == Offset(s[1], Down)
  {
  }

  class Game {
    var cellSize: int
    var cols: int
    var rows: int

    var snake: seq<Cell>
    var direction: Direction
    var nextDirection: Direction
    var food: Cell

    var score: int
    var highScore: int
    var minutes: int
    var seconds: int

    /** Whether the tick and clock timers are scheduled. */
    var running: bool

    /** Reachable states: before the first start the snake is empty; from then
        on the board, the body, the food and the score stay consistent. */
    ghost predicate Valid()
      reads this
    {
      highScore >= 0 && score >= 0 &&
      nextDirection != Opposite(direction) &&
      minutes >= 0 && 0 <= seconds < 60 &&
      (!running ==> score <= highScore) &&
      (snake == [] ==> score == 0 && !running) &&
      (snake != [] ==> InSession())
    }

    ghost predicate InSession()
      reads this
    {
      MIN_CELL <= cellSize <= MAX_CELL && rows >= MIN_ROWS && cols >= MIN_COLS &&
      WellFormed(snake, rows, cols) && InGrid(food, rows, cols) &&
      score == FOOD_POINTS * (|snake| - 2)
    }

    /** The page as loaded, with the stored high score read in. */
    constructor (storedHighScore: nat)
      ensures Valid() && !running && snake == []
      ensures highScore == storedHighScore && score == 0
      ensures direction == Down && nextDirection == Down
      ensures cellSize == DEFAULT_CELL && cols == 0 && rows == 0
      ensures food == Cell(0, 0) && minutes == 0 && seconds == 0
    {
      cellSize := DEFAULT_CELL;
      cols := 0;
      rows := 0;
      highScore := storedHighScore;
      score := 0;
      minutes, seconds := 0, 0;
      snake := [];
      direction := Down;
      nextDirection := Down;
      food := Cell(0, 0);
      running := false;
    }

    /** Re-place the food from a fresh stream of random cells. */
    method PlaceRandomFood(samples: seq<Cell>)
      requires |samples| > MAX_TRIES
      modifies this`food
      ensures food == FoodChoice(snake, samples)
    {
      var tries;
      food, tries := PlaceFood(snake, samples);
    }

    /** Size the grid for the measured usable area. */
    method ComputeGridSize(usableWidth: int, usableHeight: int)
      requires usableWidth >= 100 && usableHeight >= 100
      modifies this`cellSize, this`cols, this`rows
      ensures GridConfig(cellSize, cols, rows) == GridSize(usableWidth, usableHeight)
      ensures MIN_CELL <= cellSize <= MAX_CELL && cols >= MIN_COLS && rows >= MIN_ROWS
    {
      var g := GridSize(usableWidth, usableHeight);
      cellSize, cols, rows := g.cellSize, g.cols, g.rows;
    }

    /** Size the grid, lay out the start snake, reset the stats, place food and
        start both timers. */
    method StartGame(usableWidth: int, usableHeight: int, samples: seq<Cell>)
      requires highScore >= 0
      requires usableWidth >= 100 && usableHeight >= 100
      requires ValidSamples(samples, GridSize(usableWidth, usableHeight).rows,
                            GridSize(usableWidth, usableHeight).cols)
      modifies this
      ensures Valid() && running
      ensures GridConfig(cellSize, cols, rows) == GridSize(usableWidth, usableHeight)
      ensures snake == InitialSnake(rows, cols)
      ensures direction == Down && nextDirection == Down
      ensures score == 0 && minutes == 0 && seconds == 0
      ensures food == FoodChoice(snake, samples)
      ensures highScore == old(highScore)
    {
      ComputeGridSize(usableWidth, usableHeight);
      var startRow := rows / 3;
      var startCol := cols / 2;
      snake := [Cell(startRow, startCol), Cell(startRow - 1, startCol)];
      assert snake == InitialSnake(rows, cols);
      InitialSnakeWellFormed(rows, cols);
      direction := Down;
      nextDirection := direction;
      score := 0;
      minutes, seconds := 0, 0;
      PlaceRandomFood(samples);
      FoodChoiceInGrid(snake, samples, rows, cols);
      running := true;
    }

    /** Stop both timers and keep the better of the score and the high score. */
    method EndGame()
      requires Valid()
      modifies this`running, this`highScore
      ensures Valid() && !running
      ensures highScore == NewHighScore(old(highScore), score)
    {
      running := false;
      if score > highScore {
        highScore := score;
      }
    }

    /** One tick of the game loop (the 200 ms timer). */
    method Tick(samples: seq<Cell>)
      requires Valid() && running
      requires ValidSamples(samples, rows, cols)
      modifies this
      ensures Valid()
      ensures direction == old(nextDirection) && nextDirection == direction
      ensures direction != Opposite(old(direction))
      ensures rows == old(rows) && cols == old(cols) && cellSize == old(cellSize)
      ensures minutes == old(minutes) && seconds == old(seconds)
      ensures score >= old(score)
      ensures match Step(old(snake), old(nextDirection), old(food), rows, cols)
        case WallHit | SelfHit =>
          !running && snake == old(snake) && score == old(score) && food == old(food) &&
          highScore == NewHighScore(old(highScore), old(score))
        case Grew(body) =>
          running && snake == body && score == old(score) + FOOD_POINTS &&
          food == FoodChoice(body, samples) && highScore == old(highScore)
        case Advanced(body, _) =>
          running && snake == body && score == old(score) &&
          food == old(food) && highScore == old(highScore)
    {
      ghost var before := snake;
      StepPreservesWellFormed(snake, nextDirection, food, rows, cols);

      direction := nextDirection;

      var head := Offset(snake[0], direction);

      if !InGrid(head, rows, cols) {
        EndGame();
        return;
      }

      if head in snake {
        EndGame();
        return;
      }

      if head == food {
        score := score + FOOD_POINTS;
        snake := [head] + snake;
        PlaceRandomFood(samples);
        FoodChoiceInGrid(snake, samples, rows, cols);
      } else {
        snake := snake[..|snake| - 1];
        snake := [head] + snake;
      }
      assert snake == Step(before, direction, old(food), rows, cols).body;
    }

    /** A key press between ticks updates the buffered direction only. */
    method HandleKeyDown(k: string)
      requires Valid()
      modifies this`nextDirection
      ensures Valid()
      ensures nextDirection == AfterKey(direction, old(nextDirection), k)
    {
      nextDirection := AfterKey(direction, nextDirection, k);
    }

    /** One second of the clock (the 1000 ms timer). */
    method TimerStep()
      requires Valid() && running
      modifies this`minutes, this`seconds
      ensures Valid()
      ensures (minutes, seconds) == ClockStep(old(minutes), old(seconds))
      ensures minutes * 60 + seconds == old(minutes) * 60 + old(seconds) + 1
    {
      var t := ClockStep(minutes, seconds);
      minutes, seconds := t.0, t.1;
    }

    /** Stop the timers, then start afresh on a re-measured board. The grid
        sizing done before the start is done again by the start itself, and
        stopping the timers is scheduler work, so the state change is that of
        StartGame. */
    method Restart(usableWidth: int, usableHeight: int, samples: seq<Cell>)
      requires highScore >= 0
      requires usableWidth >= 100 && usableHeight >= 100
      requires ValidSamples(samples, GridSize(usableWidth, usableHeight).rows,
                            GridSize(usableWidth, usableHeight).cols)
      modifies this
      ensures Valid() && running
      ensures GridConfig(cellSize, cols, rows) == GridSize(usableWidth, usableHeight)
      ensures snake == InitialSnake(rows, cols)
      ensures direction == Down && nextDirection == Down
      ensures score == 0 && minutes == 0 && seconds == 0
      ensures food == FoodChoice(snake, samples)
      ensures highScore == old(highScore)
    {
      StartGame(usableWidth, usableHeight, samples);
    }

    /** A window resize ends a running game rather than remapping the board. */
    method Resize()
      requires Valid()
      modifies this`running, this`highScore
      ensures Valid() && !running
      ensures highScore == if old(running) then NewHighScore(old(highScore), score) else old(highScore)
    {
      if running {
        EndGame();
      }
    }
  }
}
