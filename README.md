# Snake game engine, modelled in Dafny

A model of the game-state engine of a browser Snake game (`script.js`). A snake
of cells moves across a grid one cell per 200 ms tick. It grows by one segment
and scores 10 points when its head reaches the food. The game ends when the head
leaves the grid or lands on any cell of the body as it was before the move, the
last segment included. Arrow keys and WASD buffer the direction for the next tick,
and a key that would reverse the committed direction is ignored. A second timer
advances a minutes:seconds clock. When a game ends, the high score becomes the
larger of itself and the score.

Modules, one per part of the engine:

- `Grid` (`grid.dfy`): cells, directions, the one-cell offset, what a well-formed
  body is (at least two segments, inside the grid, no overlap, each segment next to
  the one before it), and grid sizing from the usable board area.
- `FoodPlacer` (`food.dfy`): the bounded retry loop that places food.
  `ChosenIndex`/`FoodChoice` are its specification.
- `SnakeEngine` (`engine.dfy`): the per-tick rule as a pure function `Step`, with
  the lemma that it keeps the body well formed.
- `InputRouter` (`input.dfy`): key routing to the buffered direction.
- `GameSession` (`session.dfy`): the class `Game`, which holds the page's mutable
  state (grid, snake, directions, food, score, high score, clock, whether the timers
  run). Its methods are start, tick, key press, clock second, end, restart and
  resize. Its invariant `Valid` says that once a game has started, the body stays
  well formed, the food stays in the grid, the score is always
  `10 * (length - 2)`, and the buffered direction never reverses the committed
  one. It also says that when no game runs, the high score is at least the score.

How the model stands in for the environment:

- Board measurement becomes two integer parameters, the usable width and height,
  already floored at 100.
- `Math.random` becomes a sequence of sampled cells inside the grid. It has at
  least 2001 entries, one per try. Each food placement takes a fresh sequence.
- The stored high score becomes a constructor parameter.
- The two `setInterval` timers become the field `running`. `Tick` and `TimerStep`
  require it, because the timers only fire while they are scheduled. So once a
  game has ended, neither the score nor the clock changes until the next start.
- The clock is the integer pair (minutes, seconds), not the `"mm:ss"` string.

Facts about the sizing arithmetic in script.js that its comments do not say:

- The comments at script.js:54 and script.js:60 ("exactly fill usableWidth",
  "avoid fractional") suggest that the cells always fit the usable width. They do
  not below 180 pixels. `WidthFitsIff` proves that the columns fit exactly when the
  usable width is at least 180; below that the code still uses 6 columns of 30
  pixels. `HeightFitsIff` gives the matching condition for rows.
- The clamp to the maximum cell size (70) never takes effect: `RawCellBounds`
  proves that the unclamped cell is at most 58. The test `approxCols === 0`
  (script.js:52) never succeeds, because `ApproxCols` proves that the estimate is
  `max(6, floor(width / 50))`, which is at least 6.

The two start segments sit in adjacent rows: the head at (rows/3, cols/2) and the
tail in the cell just above it (script.js:120-122).

## Model

| member | source | states |
|---|---|---|
| `Grid.OffsetIsAdjacent` | script.js:184-188 | the new head shares a side with the old head, differs from it, and moving back the opposite way returns to it |
| `Grid.ApproxCols` | script.js:51-52 | the first column estimate equals max(6, floor(width / 50)), so it is at least 6 and the fallback for 0 never applies |
| `Grid.GridSize` | script.js:46-65 | for usable width and height of at least 100, the cell size is in [30, 70], there are at least 6 columns and at least 8 rows |
| `Grid.RawCellBounds` | script.js:51-58 | below width 180 the unclamped cell is under 30; from 180 on it is between 30 and 58, so the upper clamp never binds; the estimated columns of that cell never exceed the width |
| `Grid.WidthFitsIff` | script.js:51-62 | the columns times the cell size fit the usable width if and only if the width is at least 180 |
| `Grid.HeightFitsIff` | script.js:58-62 | the rows times the cell size fit the usable height if and only if the height holds 8 cells |
| `Grid.SixByEightBoard` | script.js:51-65 | a 300 by 400 area gives 6 columns and 8 rows of 50-pixel cells |
| `FoodPlacer.ChosenIndex` | script.js:93-100 | the try the loop stops at is the first sample before try 2000 that is off the snake, or try 2000 itself (the 2001st sample); every earlier sample is on the snake |
| `FoodPlacer.FoodChoiceInGrid` | script.js:95-99 | the food is one of the first 2001 samples and therefore inside the grid |
| `FoodPlacer.FoodChoiceFirstFree` | script.js:95-100 | if one of the first 2000 samples is off the snake, the food is off the snake and is the first such sample |
| `FoodPlacer.FoodChoiceFallback` | script.js:98-99 | if all of the first 2000 samples are on the snake, the food is sample 2001 |
| `FoodPlacer.PlaceFood` | script.js:93-100 | the do-while loop draws between 1 and 2001 samples, returns the last one drawn, all earlier draws were on the snake, it is off the snake unless the give-up branch was taken, and it equals `FoodChoice` |
| `SnakeEngine.Step` | script.js:179-224 | the tick ends the game exactly when the new head is off the grid or on any pre-move segment; otherwise the new head is in front; on food the old body follows unchanged (length + 1); otherwise the old body without its last segment follows (same length) and that segment is the vacated cell |
| `SnakeEngine.PrependPreserves` | script.js:213-223 | putting an in-grid, adjacent cell that is not yet on the body in front of it keeps the body well formed |
| `SnakeEngine.StepPreservesWellFormed` | script.js:191-224 | a tick that does not end the game keeps the body inside the grid, without overlap and connected; on a plain move the occupied cells become the old ones minus the vacated tail plus the new head |
| `SnakeEngine.TailCellIsSelfHit` | script.js:196-200 | moving onto the current last segment ends the game, although a plain move would have vacated that cell |
| `SnakeEngine.DownTickFromStart` | script.js:183-224 | on 8 rows and 6 columns, snake [(2,3),(1,3)] moving down without food becomes [(3,3),(2,3)] and vacates (1,3) |
| `SnakeEngine.DownTickIntoWall` | script.js:190-194 | a head at (7,3) moving down on 8 rows hits the wall |
| `InputRouter.AfterKey` | script.js:233-244 | a key sets the buffer to the direction it names unless that reverses the committed direction; unknown keys and reversing keys leave the buffer as it was; the buffer never becomes the reverse of the committed direction unless it already was |
| `InputRouter.KeysNeverReverse` | script.js:233-244 | any burst of keys between two ticks leaves the buffer different from the reverse of the committed direction |
| `InputRouter.BufferedFromKeys` | script.js:233-244 | after a burst of keys the buffer is either what it was or a non-reversing direction named by one of the keys |
| `GameSession.ClockStep` | script.js:150-153 | with seconds in [0, 59], one step adds exactly one to minutes*60 + seconds and keeps seconds in [0, 59]; minutes never go down |
| `GameSession.ClockRollsOver` | script.js:150-153 | (0, 59), that is "00:59", becomes (1, 0), that is "01:00" |
| `GameSession.NewHighScore` | script.js:170-173 | the new high score is at least the old high score and at least the score, and it is one of the two |
| `GameSession.HighScoreRaised` | script.js:170-173 | a score of 120 against a stored 80 gives 120 |
| `GameSession.InitialSnakeWellFormed` | script.js:119-122 | on any grid with at least 8 rows and 6 columns, the start snake is well formed and its head is directly below its tail |
| `GameSession.Game.constructor` | script.js:16-31 | the page starts with an empty snake, direction and buffer down, score 0, clock 00:00, food at (0,0), the stored high score, and no timers running |
| `GameSession.Game.ComputeGridSize` | script.js:39-65 | the grid fields become the sizing of the usable area, so the cell size is in [30, 70] with at least 6 columns and 8 rows |
| `GameSession.Game.PlaceRandomFood` | script.js:93-100 | the food field becomes the loop's choice for the current snake |
| `GameSession.Game.StartGame` | script.js:113-156 | from any state with a non-negative high score: the grid is the sizing of the usable area; the snake is the start snake; direction and buffer are down; score and clock are 0; food is the loop's choice; the timers run; the high score is kept; the invariant holds |
| `GameSession.Game.EndGame` | script.js:158-175 | the timers stop and the high score becomes the larger of the high score and the score |
| `GameSession.Game.Tick` | script.js:179-229 | the buffer is committed and the new direction never reverses the old one; on a wall or self hit the game ends, with snake, score and food unchanged and the high score updated; on food the snake is the grown body, the score rises by 10 and the food is re-placed for the grown body; otherwise the snake is the advanced body and score and food are unchanged; grid and clock never change; the invariant is kept |
| `GameSession.Game.HandleKeyDown` | script.js:233-244 | only the buffered direction changes, as `AfterKey` says, and the invariant is kept |
| `GameSession.Game.TimerStep` | script.js:149-155 | the clock advances by exactly one second, as `ClockStep` says |
| `GameSession.Game.Restart` | script.js:248-258 | restarting leaves the same state as a start on the re-measured area |
| `GameSession.Game.Resize` | script.js:265-269 | a resize ends a running game, updating the high score, and leaves a stopped game as it was |

## Left out

- Drawing the board (`buildGrid`, `resetBoardVisuals`, the `classList` and `innerText` updates, the modals): these only render the state.
- Board measurement (`getComputedStyle`, `parseFloat` of the padding, `clientWidth`/`clientHeight`): it works on floating-point browser values. The model starts from the integer usable width and height.
- `setInterval`/`clearInterval` and the event listeners: scheduling only. Their effect is the `running` field and the requirement that `Tick` and `TimerStep` need it.
- Reading and writing the high score in `localStorage`, and the `Number()` parsing of the stored value: foreign I/O. The stored value is a constructor parameter, and writing it back is the `highScore` field changing.
- `Math.random`: replaced by sequences of sampled in-grid cells. The model does not cover the uniform distribution or the floor of `random * rows`.
- The `"mm:ss"` string and its `split`/`padStart` handling: the clock is an integer pair.
- `GameSession.Game.Restart`: the extra `computeGridSize` and `buildGrid` before `startGame` are not modelled separately, because `startGame` repeats them.
