/**
 * The pure pieces of `initProcess` in maze/MazeApp.cpp: decoding the maze
 * image into grid cells, the cell lookup `GetCell` of maze/MazeApp.hpp, and
 * the loop that turns the grid into the render queue of positioned tiles.
 *
 * A grid of width `w` and height `h` is stored row by row, so the cell in
 * row `row` and column `col` is at index `row * w + col`.  The tile of that
 * cell is centred at x = -w + 1 + 2 col, y = h - 1 - 2 row: tiles are two
 * units wide and the grid is centred on the origin.
 */
module Grid {
  import opened Geometry
  import opened Bounds

  datatype Option<T> = None | Some(value: T)

  newtype byte = x: int | 0 <= x < 256

  /** The colour a cell type is drawn with in the maze image, as (red, green, blue) channel flags. */
  function ColourOf(c: GridCell): (rgb: (bool, bool, bool))
    requires c != Coin && c != Door
  {
    match c
    case Empty => (true, true, true)
    case Wall => (true, false, false)
    case Finish => (false, true, false)
    case Spawn => (false, false, false)
  }

  /**
   * The cell type of a pixel from whether its red, green and blue channels
   * are set: white, red, green and black map to empty, wall, finish and
   * spawn; any other colour leaves the cell unassigned.
   */
  function CellOfColour(red: bool, green: bool, blue: bool): (c: Option<GridCell>)
    ensures c.Some? ==> c.value != Coin && c.value != Door && ColourOf(c.value) == (red, green, blue)
    ensures c.None? <==> (red && green && !blue) || (blue && !(red && green))
  {
    if red && green && blue then Some(Empty)
    else if red && !green && !blue then Some(Wall)
    else if !red && green && !blue then Some(Finish)
    else if !red && !green && !blue then Some(Spawn)
    else None
  }

  /** Decoding the colour of a cell type gives the cell type back. */
  lemma ColourRoundTrip(c: GridCell)
    requires c != Coin && c != Door
    ensures CellOfColour(ColourOf(c).0, ColourOf(c).1, ColourOf(c).2) == Some(c)
  {
  }

  /** `k * c` grows with `k` for a non-negative factor `c`. */
  lemma MulMono(c: nat, k: nat, m: nat)
    requires k <= m
    ensures c * k <= c * m
  {
  }

  /**
   * The decoding loop of `initProcess` over an image with `channels` bytes
   * per pixel: cell `k` is decided by bytes `channels * k` to
   * `channels * k + 2`; `None` marks a cell the loop leaves unassigned.
   */
  method DecodeGrid(image: seq<byte>, channels: nat, cells: nat) returns (grid: array<Option<GridCell>>)
    requires cells == 0 || channels * (cells - 1) + 2 < |image|
    ensures grid.Length == cells
    ensures forall k :: 0 <= k < cells ==>
      channels * k + 2 < |image| &&
      grid[k] == CellOfColour(image[channels * k] != 0, image[channels * k + 1] != 0, image[channels * k + 2] != 0)
  {
    grid := new Option<GridCell>[cells](_ => None);
    var cell := 0;
    while cell < cells
      invariant 0 <= cell <= cells
      invariant forall k :: 0 <= k < cell ==>
        channels * k + 2 < |image| &&
        grid[k] == CellOfColour(image[channels * k] != 0, image[channels * k + 1] != 0, image[channels * k + 2] != 0)
    {
      MulMono(channels, cell, cells - 1);
      var red := image[channels * cell + 0] != 0;
      var green := image[channels * cell + 1] != 0;
      var blue := image[channels * cell + 2] != 0;
      grid[cell] := CellOfColour(red, green, blue);
      cell := cell + 1;
    }
  }

  /** The position of the tile of the cell in row `row` and column `col`. */
  function TilePosition(w: int, h: int, row: int, col: int): (p: Point)
    ensures (p.x + w - 1) / 2 == col && (h - 1 - p.y) / 2 == row
  {
    Point(-w + 1 + 2 * col, h - 1 - 2 * row)
  }

  /** Different cells get different tile positions. */
  lemma TilePositionInjective(w: int, h: int, r1: int, c1: int, r2: int, c2: int)
    requires TilePosition(w, h, r1, c1) == TilePosition(w, h, r2, c2)
    ensures r1 == r2 && c1 == c2
  {
  }

  /** The row-major index of a cell of a grid `w` wide lies inside a grid of `w * h` cells. */
  lemma {:induction false} CellIndexInRange(w: nat, h: nat, row: nat, col: nat)
    requires row < h && col < w
    ensures row * w + col < w * h
  {
    MulMono(w, row, h - 1);
    assert w * (h - 1) == w * h - w;
  }

  /** The row and column of a row-major index are recovered by division by the width. */
  lemma {:induction false} CellIndexDivMod(w: nat, row: nat, col: nat)
    requires col < w
    ensures (row * w + col) / w == row && (row * w + col) % w == col
  {
    var k := row * w + col;
    var q, r := k / w, k % w;
    assert k == w * q + r;
    assert w * (q - row) == col - r;
    if q > row {
      MulMono(w, 1, q - row);
      assert false;
    }
    if q < row {
      assert w * (row - q) == r - col;
      MulMono(w, 1, row - q);
      assert false;
    }
  }

  /** An index below `w * h` is in a row below `h`. */
  lemma {:induction false} RowInRange(w: nat, h: nat, k: nat)
    requires k < w * h
    ensures w > 0 && 0 <= k / w < h && 0 <= k % w < w
  {
    if k / w >= h {
      MulMono(w, h, k / w);
      assert false;
    }
  }

  /** `GetCell` of maze/MazeApp.hpp: the cell in row `row` and column `col` of a grid `w` wide. */
  function GetCell(grid: seq<GridCell>, w: nat, row: nat, col: nat): GridCell
    requires row * w + col < |grid|
  {
    grid[row * w + col]
  }

  /**
   * The render queue `initProcess` is meant to build: one tile per cell, in
   * row-major order, each at the tile position of its row and column and
   * with its cell type.
   */
  function RenderQueue(grid: seq<GridCell>, w: nat, h: nat): (q: seq<RenderObject>)
    requires |grid| == w * h
    ensures |q| == w * h
  {
    if w == 0 then [] else seq(w * h, k requires 0 <= k < w * h => RenderObject(TilePosition(w, h, k / w, k % w), grid[k]))
  }

  /** The tile of the cell in row `row` and column `col` is the render queue's entry `row * w + col`. */
  lemma RenderQueueAt(grid: seq<GridCell>, w: nat, h: nat, row: nat, col: nat)
    requires |grid| == w * h && row < h && col < w
    ensures row * w + col < w * h
    ensures RenderQueue(grid, w, h)[row * w + col] == RenderObject(TilePosition(w, h, row, col), GetCell(grid, w, row, col))
  {
    CellIndexInRange(w, h, row, col);
    CellIndexDivMod(w, row, col);
  }

  /**
   * The fill loop of `initProcess` with rows running to the height and
   * columns to the width: it builds the render queue cell by cell.
   */
  method FillRenderQueue(grid: seq<GridCell>, w: nat, h: nat) returns (queue: seq<RenderObject>)
    requires |grid| == w * h
    ensures queue == RenderQueue(grid, w, h)
  {
    queue := [];
    var row := 0;
    while row < h
      invariant 0 <= row <= h
      invariant row * w <= w * h && queue == RenderQueue(grid, w, h)[..row * w]
    {
      var col := 0;
      while col < w
        invariant 0 <= col <= w
        invariant row * w + col <= w * h && queue == RenderQueue(grid, w, h)[..row * w + col]
      {
        RenderQueueAt(grid, w, h, row, col);
        var x: int := 2 * col + 1 - w;
        var y: int := h - 1 - 2 * row;
        queue := queue + [RenderObject(Point(x, y), GetCell(grid, w, row, col))];
        col := col + 1;
      }
      assert (row + 1) * w == row * w + w;
      row := row + 1;
    }
    assert queue == RenderQueue(grid, w, h)[..h * w];
  }

  /** The tile of a cell of a maze at most 33 cells wide and high lies inside the root's square. */
  lemma TileInRoot(w: nat, h: nat, row: nat, col: nat)
    requires w <= 33 && h <= 33 && row < h && col < w
    ensures InRect(TilePosition(w, h, row, col), RootRect)
  {
  }

  /** Every tile of a maze at most 33 cells wide and high lies inside the square `calcBorders` gives the root. */
  lemma {:induction false} RenderQueueInRoot(grid: seq<GridCell>, w: nat, h: nat)
    requires |grid| == w * h && w <= 33 && h <= 33
    ensures AllInRect(RenderQueue(grid, w, h), RootRect)
  {
    var q := RenderQueue(grid, w, h);
    forall x | x in q
      ensures InRect(x.position, RootRect)
    {
      var k :| 0 <= k < |q| && q[k] == x;
      RowInRange(w, h, k);
      TileInRoot(w, h, k / w, k % w);
    }
  }

  /**
   * The cell indices the fill loop of `initProcess` reads as written: rows
   * run up to the width and columns up to the height, and the cell in row
   * `row` and column `col` is read at `row * w + col`.
   */
  function FillIndicesAsWritten(w: nat, h: nat): (r: seq<int>)
    ensures |r| == w * h
  {
    if h == 0 then [] else seq(w * h, k requires 0 <= k < w * h => (k / h) * w + k % h)
  }

  /** On a grid wider than it is high, the last cell the loop as written reads lies past the end of the grid. */
  lemma {:induction false} AsWrittenReadsPastEnd(w: nat, h: nat)
    requires 1 <= h < w
    ensures FillIndicesAsWritten(w, h)[w * h - 1] >= w * h
  {
    var k := w * h - 1;
    assert k == (w - 1) * h + (h - 1);
    CellIndexDivMod(h, w - 1, h - 1);
    assert FillIndicesAsWritten(w, h)[k] == (w - 1) * w + (h - 1);
    MulMono(w - 1, h + 1, w);
    assert (w - 1) * w + (h - 1) - w * h == (w - 1) * (w - h) - 1;
    MulMono(w - 1, 1, w - h);
  }

  /** A two-by-one maze: the loop as written reads index 2 of a grid with two cells. */
  lemma AsWrittenCounterexample()
    ensures FillIndicesAsWritten(2, 1) == [0, 2] && FillIndicesAsWritten(2, 1)[1] >= |[Empty, Wall]|
  {
    assert FillIndicesAsWritten(2, 1)[0] == 0;
    assert FillIndicesAsWritten(2, 1)[1] == 2;
  }
}
