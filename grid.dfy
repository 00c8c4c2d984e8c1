/**
 * Occupancy counters of the GRID_SIZE x GRID_SIZE grid, stored row-major (as numpy
 * stores a 2-D array), and sums over the square neighbourhood of a cell: the offsets
 * -r <= d <= r in each direction, of which only the in-bounds cells count.
 */
module Grid {
  import opened Agents

  /** Number of cells of the grid. */
  const CELLS: int := GRID_SIZE * GRID_SIZE

  function Min(a: int, b: int): int { if a < b then a else b }
  function Max(a: int, b: int): int { if a < b then b else a }

  predicate InBounds(x: int, y: int)
  {
    0 <= x < GRID_SIZE && 0 <= y < GRID_SIZE
  }

  /** Row-major position of cell (x, y). */
  function Idx(x: int, y: int): (p: int)
    requires InBounds(x, y)
    ensures 0 <= p < CELLS
  {
    x * GRID_SIZE + y
  }

  /** Distinct cells have distinct positions, so one counter changes per cell update. */
  lemma IdxInjective(x: int, y: int, u: int, v: int)
    requires InBounds(x, y) && InBounds(u, v)
    ensures Idx(x, y) == Idx(u, v) <==> (x, y) == (u, v)
  {
  }

  /** Sum of g at (x, j + dj) over the in-bounds offsets -r <= dj < d. */
  function RowWindowSum(g: seq<int>, x: int, j: int, r: int, d: int): int
    requires |g| == CELLS
    decreases d + r
  {
    if d <= -r then 0
    else RowWindowSum(g, x, j, r, d - 1) + (if InBounds(x, j + d - 1) then g[Idx(x, j + d - 1)] else 0)
  }

  /** Sum of the rows i + di, -r <= di < d, of the window of radius r around column j. */
  function WindowSum(g: seq<int>, i: int, j: int, r: int, d: int): int
    requires |g| == CELLS
    decreases d + r
  {
    if d <= -r then 0
    else WindowSum(g, i, j, r, d - 1) + RowWindowSum(g, i + d - 1, j, r, r + 1)
  }

  /** Sum of g over the in-bounds cells of the square of radius r around (i, j). */
  function SquareSum(g: seq<int>, i: int, j: int, r: int): int
    requires |g| == CELLS
  {
    WindowSum(g, i, j, r, r + 1)
  }

  /** Number of in-bounds offsets -r <= dj < d in row x around column j. */
  function RowWindowCount(x: int, j: int, r: int, d: int): nat
    decreases d + r
  {
    if d <= -r then 0 else RowWindowCount(x, j, r, d - 1) + (if InBounds(x, j + d - 1) then 1 else 0)
  }

  function WindowCount(i: int, j: int, r: int, d: int): nat
    decreases d + r
  {
    if d <= -r then 0 else WindowCount(i, j, r, d - 1) + RowWindowCount(i + d - 1, j, r, r + 1)
  }

  /** Number of in-bounds cells of the square of radius r around (i, j). */
  function SquareCount(i: int, j: int, r: int): nat
  {
    WindowCount(i, j, r, r + 1)
  }

  lemma {:induction false} RowWindowCountCentre(x: int, j: int, r: int, d: int)
    requires InBounds(x, j) && 0 <= r && 1 <= d
    ensures RowWindowCount(x, j, r, d) >= 1
    decreases d + r
  {
    if d > 1 {
      RowWindowCountCentre(x, j, r, d - 1);
    }
  }

  lemma {:induction false} WindowCountCentre(i: int, j: int, r: int, d: int)
    requires InBounds(i, j) && 0 <= r && 1 <= d
    ensures WindowCount(i, j, r, d) >= 1
    decreases d + r
  {
    if d > 1 {
      WindowCountCentre(i, j, r, d - 1);
    } else {
      RowWindowCountCentre(i, j, r, r + 1);
    }
  }

  /** An in-grid cell lies in its own square of any radius r >= 0. */
  lemma SquareHoldsCentre(i: int, j: int, r: int)
    requires InBounds(i, j) && 0 <= r
    ensures SquareCount(i, j, r) >= 1
  {
    WindowCountCentre(i, j, r, r + 1);
  }

  /** Every counter of g is non-negative. */
  predicate NonNeg(g: seq<int>)
  {
    forall p :: 0 <= p < |g| ==> g[p] >= 0
  }

  lemma {:induction false} RowWindowSumNonNeg(g: seq<int>, x: int, j: int, r: int, d: int)
    requires |g| == CELLS && NonNeg(g)
    ensures RowWindowSum(g, x, j, r, d) >= 0
    decreases d + r
  {
    if d > -r {
      RowWindowSumNonNeg(g, x, j, r, d - 1);
    }
  }

  /** A window sum over non-negative counters is non-negative. */
  lemma {:induction false} WindowSumNonNeg(g: seq<int>, i: int, j: int, r: int, d: int)
    requires |g| == CELLS && NonNeg(g)
    ensures WindowSum(g, i, j, r, d) >= 0
    decreases d + r
  {
    if d > -r {
      WindowSumNonNeg(g, i, j, r, d - 1);
      RowWindowSumNonNeg(g, i + d - 1, j, r, r + 1);
    }
  }

  /** Adding one to a counter inside a row window adds one to the window's sum. */
  lemma {:induction false} RowWindowSumBump(g: seq<int>, x: int, j: int, r: int, d: int, u: int, v: int)
    requires |g| == CELLS && InBounds(u, v)
    ensures RowWindowSum(g[Idx(u, v) := g[Idx(u, v)] + 1], x, j, r, d)
            == RowWindowSum(g, x, j, r, d) + (if x == u && -r <= v - j < d then 1 else 0)
    decreases d + r
  {
    if d > -r {
      RowWindowSumBump(g, x, j, r, d - 1, u, v);
      if InBounds(x, j + d - 1) {
        IdxInjective(x, j + d - 1, u, v);
      }
    }
  }

  lemma {:induction false} WindowSumBump(g: seq<int>, i: int, j: int, r: int, d: int, u: int, v: int)
    requires |g| == CELLS && InBounds(u, v)
    ensures WindowSum(g[Idx(u, v) := g[Idx(u, v)] + 1], i, j, r, d)
            == WindowSum(g, i, j, r, d) + (if -r <= u - i < d && -r <= v - j <= r then 1 else 0)
    decreases d + r
  {
    if d > -r {
      WindowSumBump(g, i, j, r, d - 1, u, v);
      RowWindowSumBump(g, i + d - 1, j, r, r + 1, u, v);
    }
  }

  /**
   * One more agent in cell (u, v) raises the neighbourhood sum of every cell within
   * distance r of it, in both directions, by exactly one, and leaves the others alone.
   */
  lemma SquareSumBump(g: seq<int>, i: int, j: int, r: int, u: int, v: int)
    requires |g| == CELLS && InBounds(u, v)
    ensures SquareSum(g[Idx(u, v) := g[Idx(u, v)] + 1], i, j, r)
            == SquareSum(g, i, j, r) + (if Abs(u - i) <= r && Abs(v - j) <= r then 1 else 0)
  {
    WindowSumBump(g, i, j, r, r + 1, u, v);
  }
}
