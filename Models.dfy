/** Value types of the chain-reaction engine: players, cells, positions and the
    immutable game-state snapshot that every operation takes and returns. */
module Models {

  datatype Option<T> = None | Some(value: T)

  /** A player. The engine compares players structurally; names and colours are
      presentation only, so a player is its id here. */
  datatype Player = Player(id: int)

  datatype CellType = Corner | Edge | Inner

  /** A grid position (x, y); x is the column, y the row. */
  datatype Pos = Pos(x: int, y: int)

  /** A cell. The last three fields are transient cascade metadata that only
      drive the animation: whether the last explosion captured the cell from
      another player, who that player was, and the cascade depth. */
  datatype Cell = Cell(
    x: int,
    y: int,
    owner: Option<Player>,
    molecules: int,
    captureAnimation: bool,
    previousOwner: Option<Player>,
    explosionLevel: int)

  /** Rows of cells: grid[y][x]. */
  type Grid = seq<seq<Cell>>

  datatype GameState = GameState(
    grid: Grid,
    players: seq<Player>,
    currentPlayerIndex: int,
    isGameOver: bool,
    winner: Option<Player>,
    playerTurns: map<int, int>)

  /** A non-empty grid whose rows all have the width of the first row. */
  predicate IsRect(g: Grid) {
    |g| > 0 && forall j :: 0 <= j < |g| ==> |g[j]| == |g[0]|
  }

  predicate InGrid(x: int, y: int, width: int, height: int) {
    0 <= x < width && 0 <= y < height
  }

  /** Every position of ns lies on a width x height grid. */
  predicate AllInGrid(ns: seq<Pos>, width: int, height: int) {
    forall p :: p in ns ==> InGrid(p.x, p.y, width, height)
  }

  /** (x, y) lies on grid g; the width is that of the first row, as the engine reads it. */
  predicate InBounds(g: Grid, x: int, y: int)
    requires |g| > 0
  {
    InGrid(x, y, |g[0]|, |g|)
  }

  /** g and r are rectangular grids of the same dimensions. */
  predicate SameLayout(g: Grid, r: Grid) {
    IsRect(g) && IsRect(r) && |r| == |g| && |r[0]| == |g[0]|
  }

  /** Every cell of r keeps the coordinates stored in the cell of g at the same place. */
  predicate KeepsCoordinates(g: Grid, r: Grid)
    requires SameLayout(g, r)
  {
    forall j, i :: 0 <= j < |g| && 0 <= i < |g[0]| ==> r[j][i].x == g[j][i].x && r[j][i].y == g[j][i].y
  }

  /** The number of turns recorded for a player id; an absent entry reads as 0. */
  function TurnsOf(turns: map<int, int>, id: int): int {
    if id in turns then turns[id] else 0
  }
}
