/** The image grid, the `(row, col, color)` writes made to it, and `checkTileBounds`. */
module Tiles {
  import opened Wrappers
  import opened Colors

  /** The image state: an array of rows, each an array of colours. */
  type Grid = seq<seq<Color>>

  /** One entry of an update list: the object `{row, col, color}`. */
  datatype Pixel = Pixel(row: int, col: int, color: Color)

  /** An update list: the writes of one edit, in order. */
  type Patch = seq<Pixel>

  /** Every row of `grid` has `width` cells and there are `height` rows. */
  predicate IsRectangular(grid: Grid, width: int, height: int) {
    |grid| == height && forall r :: 0 <= r < |grid| ==> |grid[r]| == width
  }

  /** `checkTileBounds` (util.js): the cell lies on a `width` by `height` grid. */
  function CheckTileBounds(row: int, col: int, width: int, height: int): (inside: bool)
    ensures inside <==> 0 <= row < height && 0 <= col < width
  {
    !(col < 0 || col >= width || row < 0 || row >= height)
  }

  /** `grid[row]` exists; reading `grid[row][col]` for a missing row throws a TypeError. */
  predicate RowExists(grid: Grid, row: int) {
    0 <= row < |grid|
  }

  /** `grid[row][col]` for an existing row: `undefined` (None) for a missing column. */
  function Read(grid: Grid, row: int, col: int): (v: Option<Color>)
    requires RowExists(grid, row)
    ensures v.Some? <==> 0 <= col < |grid[row]|
    ensures v.Some? ==> v.value == grid[row][col]
  {
    if 0 <= col < |grid[row]| then Some(grid[row][col]) else None
  }

  /** `grid[row][col] !== color` for the entry `p`; a missing column reads as `undefined`,
      which differs from every colour. */
  predicate Differs(grid: Grid, p: Pixel)
    requires RowExists(grid, p.row)
  {
    Read(grid, p.row, p.col) != Some(p.color)
  }

  /** The cell named by `p` exists and already holds `p.color`. */
  predicate Holds(grid: Grid, p: Pixel) {
    RowExists(grid, p.row) && 0 <= p.col < |grid[p.row]| && grid[p.row][p.col] == p.color
  }

  /** Every cell named in `patch` exists. */
  predicate InGrid(grid: Grid, patch: Patch) {
    forall i :: 0 <= i < |patch| ==> RowExists(grid, patch[i].row) && 0 <= patch[i].col < |grid[patch[i].row]|
  }

  /** Reference definition of a single-cell write: the grid with cell `(row, col)` replaced. */
  function Paint(grid: Grid, row: int, col: int, color: Color): Grid
    requires RowExists(grid, row) && 0 <= col < |grid[row]|
  {
    grid[row := grid[row][col := color]]
  }

  /** Writing a cell's own colour back leaves the grid as it is. */
  lemma PaintHeld(grid: Grid, row: int, col: int, color: Color)
    requires RowExists(grid, row) && 0 <= col < |grid[row]| && grid[row][col] == color
    ensures Paint(grid, row, col, color) == grid
  {
    assert grid[row][col := color] == grid[row];
  }
}
