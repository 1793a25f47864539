/** Cells, directions, the shape of a well-formed snake body, and the grid
    sizing arithmetic that turns the board's usable pixel area into a grid. */
module Grid {

  /** A board cell. `row` is `x` in script.js, `col` is `y`. */
  datatype Cell = Cell(row: int, col: int)

  datatype Direction = Up | Down | Left | Right

  function Opposite(d: Direction): (r: Direction)
    ensures r != d
  {
    match d
    case Up => Down
    case Down => Up
    case Left => Right
    case Right => Left
  }

  /** The cell one step from `c` in direction `d`. */
  function Offset(c: Cell, d: Direction): Cell
  {
    match d
    case Left => Cell(c.row, c.col - 1)
    case Right => Cell(c.row, c.col + 1)
    case Up => Cell(c.row - 1, c.col)
    case Down => Cell(c.row + 1, c.col)
  }

  /** Two cells that share a side. */
  predicate Adjacent(a: Cell, b: Cell)
  {
    (a.row == b.row && (a.col - b.col == 1 || b.col - a.col == 1)) ||
    (a.col == b.col && (a.row - b.row == 1 || b.row - a.row == 1))
  }

  lemma OffsetIsAdjacent(c: Cell, d: Direction)
    ensures Adjacent(Offset(c, d), c)
    ensures Offset(c, d) != c
    ensures Offset(Offset(c, d), Opposite(d)) == c
  {
  }

  predicate InGrid(c: Cell, rows: int, cols: int)
  {
    0 <= c.row < rows && 0 <= c.col < cols
  }

  predicate AllInGrid(s: seq<Cell>, rows: int, cols: int)
  {
    forall i :: 0 <= i < |s| ==> InGrid(s[i], rows, cols)
  }

  /** No two segments of `s` occupy the same cell. */
  predicate Distinct(s: seq<Cell>)
  {
    forall i, j :: 0 <= i < j < |s| ==> s[i] != s[j]
  }

  /** Each segment touches the one before it. */
  predicate Connected(s: seq<Cell>)
  {
    forall i :: 0 < i < |s| ==> Adjacent(s[i - 1], s[i])
  }

  /** A snake body as it is between ticks of a running game. */
  predicate WellFormed(s: seq<Cell>, rows: int, cols: int)
  {
    |s| >= 2 && AllInGrid(s, rows, cols) && Distinct(s) && Connected(s)
  }

  // ---------------------------------------------------------------------------
  // Grid sizing

  const MIN_CELL: int := 30
  const MAX_CELL: int := 70
  const DEFAULT_CELL: int := 50
  const MIN_COLS: int := 6
  const MIN_ROWS: int := 8

  datatype GridConfig = GridConfig(cellSize: int, cols: int, rows: int)

  function Max(a: int, b: int): int { if a >= b then a else b }
  function Min(a: int, b: int): int { if a <= b then a else b }

  /** The first column estimate, from the default cell size. */
  function ApproxCols(usableWidth: int): (n: int)
    requires usableWidth >= 100
    ensures n >= MIN_COLS
    ensures n == Max(MIN_COLS, usableWidth / DEFAULT_CELL)
  {
    var approx := Max(MIN_COLS, usableWidth / DEFAULT_CELL);
    if approx == 0 then MIN_COLS else approx
  }

  /** The cell size before clamping: what makes `ApproxCols` columns fill the width. */
  function RawCell(usableWidth: int): int
    requires usableWidth >= 100
  {
    usableWidth / ApproxCols(usableWidth)
  }

  /** Grid sizing from integer usable dimensions (already floored at 100). */
  function GridSize(usableWidth: int, usableHeight: int): (g: GridConfig)
    requires usableWidth >= 100 && usableHeight >= 100
    ensures MIN_CELL <= g.cellSize <= MAX_CELL
    ensures g.cols >= MIN_COLS && g.rows >= MIN_ROWS
  {
    var cell := Max(MIN_CELL, Min(MAX_CELL, RawCell(usableWidth)));
    GridConfig(cell, Max(MIN_COLS, usableWidth / cell), Max(MIN_ROWS, usableHeight / cell))
  }

  /** The clamp to MAX_CELL never takes effect: the raw cell is at most 58. */
  lemma RawCellBounds(usableWidth: int)
    requires usableWidth >= 100
    ensures usableWidth < 180 ==> RawCell(usableWidth) < MIN_CELL
    ensures usableWidth >= 180 ==> MIN_CELL <= RawCell(usableWidth) <= 58
    ensures ApproxCols(usableWidth) * RawCell(usableWidth) <= usableWidth
  {
  }

  /** The columns fit the usable width exactly when it is at least 180 pixels:
      below that, the minimum of 6 columns of the minimum cell size overflows. */
  lemma WidthFitsIff(usableWidth: int, usableHeight: int)
    requires usableWidth >= 100 && usableHeight >= 100
    ensures var g := GridSize(usableWidth, usableHeight);
      g.cols * g.cellSize <= usableWidth <==> usableWidth >= 180
  {
    RawCellBounds(usableWidth);
  }

  /** The rows fit the usable height exactly when it holds the minimum of 8 rows. */
  lemma HeightFitsIff(usableWidth: int, usableHeight: int)
    requires usableWidth >= 100 && usableHeight >= 100
    ensures var g := GridSize(usableWidth, usableHeight);
      g.rows * g.cellSize <= usableHeight <==> usableHeight >= MIN_ROWS * g.cellSize
  {
  }

  /** A 300 x 400 usable area gives the 6-column, 8-row board of 50-pixel cells. */
  lemma SixByEightBoard()
    ensures GridSize(300, 400) == GridConfig(50, 6, 8)
  {
  }
}
