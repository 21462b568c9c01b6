/** The letter grid: a flat cell array of `rows * cols` entries addressed by
    `(x, y)` as `y * cols + x`, with the `setLetter`, `clamp` and `letter`
    accessors of `WordGrid`. */
module Grids {

  import opened Options

  datatype Grid = Grid(cols: nat, rows: nat, cells: seq<Option<char>>)

  /** The cell array has exactly one entry per grid cell. */
  predicate Valid(g: Grid) {
    |g.cells| == g.cols * g.rows
  }

  predicate InBounds(g: Grid, x: int, y: int) {
    0 <= x < g.cols && 0 <= y < g.rows
  }

  /** Row-major address of cell `(x, y)`. */
  function Index(cols: int, x: int, y: int): int {
    y * cols + x
  }

  lemma IndexInRange(g: Grid, x: int, y: int)
    requires Valid(g) && InBounds(g, x, y)
    ensures 0 <= Index(g.cols, x, y) < |g.cells|
  {
    assert y * g.cols <= (g.rows - 1) * g.cols by {
      MulLeq(y, g.rows - 1, g.cols);
    }
  }

  lemma MulLeq(a: int, b: int, c: nat)
    requires a <= b
    ensures a * c <= b * c
  {
  }

  /** Row-major order: a later address lies in a later row, or further right
      in the same row. */
  lemma RowMajorOrder(cols: int, k1: int, k2: int)
    requires cols > 0 && 0 <= k1 < k2
    ensures k1 / cols < k2 / cols || (k1 / cols == k2 / cols && k1 % cols < k2 % cols)
  {
    var q1, r1, q2, r2 := k1 / cols, k1 % cols, k2 / cols, k2 % cols;
    assert k1 == q1 * cols + r1 && k2 == q2 * cols + r2;
    if q1 > q2 {
      MulLeq(q2 + 1, q1, cols);
    }
  }

  /** Two in-range cells share an address only if they are the same cell. */
  lemma IndexInjective(cols: int, x1: int, y1: int, x2: int, y2: int)
    requires 0 <= x1 < cols && 0 <= x2 < cols
    ensures Index(cols, x1, y1) == Index(cols, x2, y2) <==> x1 == x2 && y1 == y2
  {
    if y1 < y2 {
      MulLeq(y1 + 1, y2, cols);
    } else if y2 < y1 {
      MulLeq(y2 + 1, y1, cols);
    }
  }

  /** Every address of a valid grid is the address of exactly one cell,
      the one the fill pass reaches as row `k / cols`, column `k % cols`. */
  lemma RowMajor(g: Grid, k: int)
    requires Valid(g) && 0 <= k < |g.cells|
    ensures g.cols > 0
    ensures InBounds(g, k % g.cols, k / g.cols)
    ensures Index(g.cols, k % g.cols, k / g.cols) == k
  {
    var q, r := k / g.cols, k % g.cols;
    assert k == q * g.cols + r;
    if q >= g.rows {
      MulLeq(g.rows, q, g.cols);
    }
  }

  /** The cell at `(x, y)` of a grid, for an in-range `(x, y)`. */
  function Cell(g: Grid, x: int, y: int): Option<char>
    requires Valid(g) && InBounds(g, x, y)
  {
    IndexInRange(g, x, y);
    g.cells[Index(g.cols, x, y)]
  }

  /** A grid of `rows * cols` cells that all hold nothing yet. */
  function EmptyGrid(cols: nat, rows: nat): (g: Grid)
    ensures Valid(g) && g.cols == cols && g.rows == rows
    ensures forall k :: 0 <= k < |g.cells| ==> g.cells[k].None?
  {
    Grid(cols, rows, seq(cols * rows, _ => None))
  }

  /** `setLetter`: store `c` at cell `(x, y)`. */
  function SetLetter(g: Grid, x: int, y: int, c: char): (r: Grid)
    requires Valid(g) && InBounds(g, x, y)
    ensures Valid(r) && r.cols == g.cols && r.rows == g.rows
    ensures Cell(r, x, y) == Some(c)
    ensures forall k :: 0 <= k < |g.cells| && k != Index(g.cols, x, y) ==> r.cells[k] == g.cells[k]
  {
    IndexInRange(g, x, y);
    g.(cells := g.cells[Index(g.cols, x, y) := Some(c)])
  }

  /** `clamp` as written: a negative coordinate goes to 0, a coordinate at or
      past the edge goes back by one (not to the last row or column). */
  function Clamp(cols: int, rows: int, x: int, y: int): (r: (int, int))
    ensures 0 <= x < cols ==> r.0 == x
    ensures 0 <= y < rows ==> r.1 == y
    ensures 0 < cols && x <= cols ==> 0 <= r.0 < cols
    ensures 0 < rows && y <= rows ==> 0 <= r.1 < rows
    ensures x > cols ==> r.0 >= cols
    ensures y > rows ==> r.1 >= rows
    ensures x < 0 ==> r.0 == 0
    ensures y < 0 ==> r.1 == 0
    ensures 0 <= x && x >= cols ==> r.0 == x - 1
    ensures 0 <= y && y >= rows ==> r.1 == y - 1
  {
    (if x < 0 then 0 else if x >= cols then x - 1 else x,
     if y < 0 then 0 else if y >= rows then y - 1 else y)
  }

  /** `letter`: read the cell at the clamped coordinates; an address outside
      the cell array reads as nothing (`undefined`). */
  function Letter(g: Grid, x: int, y: int): (r: Option<char>)
    ensures Valid(g) && InBounds(g, x, y) ==> r == Cell(g, x, y)
    ensures r.Some? ==> r in g.cells
  {
    var (cx, cy) := Clamp(g.cols, g.rows, x, y);
    var k := Index(g.cols, cx, cy);
    if 0 <= k < |g.cells| then g.cells[k]
    else
      assert !(Valid(g) && InBounds(g, x, y)) by {
        if Valid(g) && InBounds(g, x, y) { IndexInRange(g, x, y); }
      }
      None
  }

  /** `clamp` lands inside the grid exactly for coordinates no greater than
      the dimension: it repairs one step past the edge, and no more. */
  lemma ClampInRange(g: Grid, x: int, y: int)
    ensures var (cx, cy) := Clamp(g.cols, g.rows, x, y);
            InBounds(g, cx, cy) <==> g.cols > 0 && g.rows > 0 && x <= g.cols && y <= g.rows
    ensures InBounds(g, x, y) ==> Clamp(g.cols, g.rows, x, y) == (x, y)
  {
  }

  /** On in-range coordinates `letter` is plain cell access, one step past
      the right or bottom edge it reads the edge cell, and left of or above
      the grid it reads the first column or row. */
  lemma LetterInRange(g: Grid, x: int, y: int)
    requires Valid(g) && g.cols > 0 && g.rows > 0 && x <= g.cols && y <= g.rows
    ensures var (cx, cy) := Clamp(g.cols, g.rows, x, y);
            InBounds(g, cx, cy) && Letter(g, x, y) == Cell(g, cx, cy)
    ensures InBounds(g, x, y) ==> Letter(g, x, y) == Cell(g, x, y)
    ensures 0 <= y < g.rows ==> Letter(g, g.cols, y) == Cell(g, g.cols - 1, y)
    ensures x < 0 && 0 <= y < g.rows ==> Letter(g, x, y) == Cell(g, 0, y)
    ensures y < 0 && 0 <= x < g.cols ==> Letter(g, x, y) == Cell(g, x, 0)
  {
    var (cx, cy) := Clamp(g.cols, g.rows, x, y);
    IndexInRange(g, cx, cy);
    if 0 <= y < g.rows {
      IndexInRange(g, g.cols - 1, y);
      IndexInRange(g, 0, y);
    }
    if 0 <= x < g.cols {
      IndexInRange(g, x, 0);
    }
  }

  /** Two steps past the right edge, `letter` does not clamp: it reads the
      first cell of the next row. */
  lemma LetterPastEdgeWraps(g: Grid, y: int)
    requires Valid(g) && g.cols > 0 && 0 <= y && y + 1 < g.rows
    ensures Letter(g, g.cols + 1, y) == Cell(g, 0, y + 1)
  {
    IndexInRange(g, 0, y + 1);
    assert Index(g.cols, g.cols, y) == Index(g.cols, 0, y + 1);
  }

}
