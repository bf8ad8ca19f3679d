/** The pixel map of the drawing tool as a value: a `rows` x `cols` grid of
    cells, each 0 (white) or 1 (black), the pointer-to-cell mapping, the two
    operations that change the grid (toggle a cell, clear the grid) and what
    any sequence of them does. */
module PixelGrid {

  /** Row-major grid: `g[i][j]` is the cell in row i, column j. */
  type Grid = seq<seq<int>>

  /** The default geometry of the tool: a 30 x 30 grid of 20-pixel cells. */
  const DefaultRows: nat := 30
  const DefaultCols: nat := 30
  const DefaultCellSize: nat := 20

  /** `g` has exactly `rows` rows of exactly `cols` cells each. */
  predicate WellFormed(g: Grid, rows: nat, cols: nat)
  {
    |g| == rows && forall i :: 0 <= i < |g| ==> |g[i]| == cols
  }

  /** Every cell holds 0 or 1. */
  predicate Binary(g: Grid)
  {
    forall i, j :: 0 <= i < |g| && 0 <= j < |g[i]| ==> g[i][j] == 0 || g[i][j] == 1
  }

  /** Cell-wise order: no cell of `g` is larger than the same cell of `h`. */
  predicate AtMost(g: Grid, h: Grid)
  {
    |g| == |h| &&
    forall i :: 0 <= i < |g| ==> |g[i]| == |h[i]| && forall j :: 0 <= j < |g[i]| ==> g[i][j] <= h[i][j]
  }

  /** The all-white grid the tool starts with and that clearing produces. */
  function Zeros(rows: nat, cols: nat): (g: Grid)
    ensures WellFormed(g, rows, cols)
    ensures forall i, j :: 0 <= i < rows && 0 <= j < cols ==> g[i][j] == 0
  {
    seq(rows, _ => seq(cols, _ => 0))
  }

  /** Index of the cell a pixel coordinate falls into: Python's floor
      division `p // cellSize`.  For a positive divisor Dafny's Euclidean
      division is floor division, so a negative coordinate gives a
      negative index.  The result is the unique k whose pixel span
      [k * cellSize, k * cellSize + cellSize) holds p. */
  function CellIndex(p: int, cellSize: int): (k: int)
    requires cellSize > 0
    ensures k * cellSize <= p < k * cellSize + cellSize
  {
    p / cellSize
  }

  /** The pixel span [k * cellSize, k * cellSize + cellSize) is the one the
      canvas draws for cell index k. */
  predicate InSpan(p: int, k: int, cellSize: int)
  {
    k * cellSize <= p < k * cellSize + cellSize
  }

  /** The bounds test on the pointer's cell.  It passes exactly when the
      pointer lies on the canvas, which is `cols * cellSize` pixels wide and
      `rows * cellSize` high; in particular a negative coordinate never
      passes it. */
  predicate OnGrid(rows: nat, cols: nat, cellSize: int, x: int, y: int)
    requires cellSize > 0
    ensures OnGrid(rows, cols, cellSize, x, y) <==>
            0 <= x < cols * cellSize && 0 <= y < rows * cellSize
  {
    SpanBelow(x, cols, cellSize);
    SpanBelow(y, rows, cellSize);
    0 <= CellIndex(y, cellSize) < rows && 0 <= CellIndex(x, cellSize) < cols
  }

  /** The grid after a pointer event at pixel (x, y): the cell under the
      pointer is set to 1 (not flipped); a pointer off the grid changes
      nothing. */
  function Toggle(g: Grid, rows: nat, cols: nat, cellSize: int, x: int, y: int): (r: Grid)
    requires cellSize > 0
    requires WellFormed(g, rows, cols)
    ensures WellFormed(r, rows, cols)
    ensures forall i, j :: 0 <= i < rows && 0 <= j < cols && r[i][j] != g[i][j] ==>
              r[i][j] == 1 && OnGrid(rows, cols, cellSize, x, y) &&
              i == CellIndex(y, cellSize) && j == CellIndex(x, cellSize)
  {
    var col := CellIndex(x, cellSize);
    var row := CellIndex(y, cellSize);
    if OnGrid(rows, cols, cellSize, x, y) then g[row := g[row][col := 1]] else g
  }

  /** One user action: a press or drag at a pixel, or the Clear button. */
  datatype Action = Pointer(x: int, y: int) | Clear

  function Step(g: Grid, rows: nat, cols: nat, cellSize: int, a: Action): (r: Grid)
    requires cellSize > 0
    requires WellFormed(g, rows, cols)
    ensures WellFormed(r, rows, cols)
  {
    match a
    case Pointer(x, y) => Toggle(g, rows, cols, cellSize, x, y)
    case Clear => Zeros(rows, cols)
  }

  /** The grid after the actions `acts`, taken in order. */
  function Run(g: Grid, rows: nat, cols: nat, cellSize: int, acts: seq<Action>): (r: Grid)
    requires cellSize > 0
    requires WellFormed(g, rows, cols)
    ensures WellFormed(r, rows, cols)
    decreases |acts|
  {
    if acts == [] then g else Run(Step(g, rows, cols, cellSize, acts[0]), rows, cols, cellSize, acts[1..])
  }

  // ---------------------------------------------------------------------
  // Pointer-to-cell mapping

  /** The cell index of a coordinate is the only index whose drawn span
      contains it. */
  lemma CellIndexUnique(p: int, k: int, cellSize: int)
    requires cellSize > 0
    ensures InSpan(p, k, cellSize) <==> k == CellIndex(p, cellSize)
  {
    var c := CellIndex(p, cellSize);
    if InSpan(p, k, cellSize) && k != c {
      if k < c {
        MulMonotone(k + 1, c, cellSize);
      } else {
        MulMonotone(c + 1, k, cellSize);
      }
      assert false;
    }
  }

  lemma MulMonotone(a: int, b: int, n: int)
    requires a <= b && n > 0
    ensures a * n <= b * n
  {
  }

  lemma SpanBelow(p: int, n: nat, cellSize: int)
    requires cellSize > 0
    ensures 0 <= CellIndex(p, cellSize) < n <==> 0 <= p < n * cellSize
  {
    var k := CellIndex(p, cellSize);
    if 0 <= k < n {
      MulMonotone(k + 1, n, cellSize);
    }
    if 0 <= p < n * cellSize {
      if k < 0 {
        MulMonotone(k + 1, 0, cellSize);
      }
      if k >= n {
        MulMonotone(n, k, cellSize);
      }
    }
  }

  // ---------------------------------------------------------------------
  // Toggle

  /** A pointer on the grid sets its cell to 1 and leaves every other cell
      as it was; a pointer off the grid leaves the grid as it was. */
  lemma ToggleEffect(g: Grid, rows: nat, cols: nat, cellSize: int, x: int, y: int)
    requires cellSize > 0
    requires WellFormed(g, rows, cols)
    ensures var r := Toggle(g, rows, cols, cellSize, x, y);
            WellFormed(r, rows, cols) &&
            forall i, j :: 0 <= i < rows && 0 <= j < cols ==>
              r[i][j] == if OnGrid(rows, cols, cellSize, x, y) &&
                            i == CellIndex(y, cellSize) && j == CellIndex(x, cellSize)
                         then 1 else g[i][j]
  {
  }

  /** The cell that changes is the one whose drawn rectangle contains the
      pointer. */
  lemma ToggleHitsPointedCell(g: Grid, rows: nat, cols: nat, cellSize: int, x: int, y: int, i: nat, j: nat)
    requires cellSize > 0
    requires WellFormed(g, rows, cols)
    requires i < rows && j < cols
    requires InSpan(y, i, cellSize) && InSpan(x, j, cellSize)
    ensures Toggle(g, rows, cols, cellSize, x, y)[i][j] == 1
  {
    CellIndexUnique(y, i, cellSize);
    CellIndexUnique(x, j, cellSize);
  }

  /** A pointer off the canvas, negative coordinates included, changes nothing. */
  lemma ToggleOffCanvas(g: Grid, rows: nat, cols: nat, cellSize: int, x: int, y: int)
    requires cellSize > 0
    requires WellFormed(g, rows, cols)
    requires !(0 <= x < cols * cellSize && 0 <= y < rows * cellSize)
    ensures Toggle(g, rows, cols, cellSize, x, y) == g
  {
  }

  /** Toggling twice at the same pointer is toggling once. */
  lemma ToggleIdempotent(g: Grid, rows: nat, cols: nat, cellSize: int, x: int, y: int)
    requires cellSize > 0
    requires WellFormed(g, rows, cols)
    ensures var once := Toggle(g, rows, cols, cellSize, x, y);
            Toggle(once, rows, cols, cellSize, x, y) == once
  {
    var col := CellIndex(x, cellSize);
    var row := CellIndex(y, cellSize);
    if OnGrid(rows, cols, cellSize, x, y) {
      var once := g[row := g[row][col := 1]];
      assert once[row][col := 1] == once[row];
    }
  }

  /** On a 0/1 grid a toggle never lowers a cell, and the grid stays 0/1. */
  lemma ToggleRaises(g: Grid, rows: nat, cols: nat, cellSize: int, x: int, y: int)
    requires cellSize > 0
    requires WellFormed(g, rows, cols) && Binary(g)
    ensures var r := Toggle(g, rows, cols, cellSize, x, y);
            Binary(r) && AtMost(g, r)
  {
  }

  // ---------------------------------------------------------------------
  // Clear

  /** Clearing gives the all-zero grid of the same size whatever the grid
      was, so clearing twice is clearing once. */
  lemma ClearIdempotent(g: Grid, rows: nat, cols: nat, cellSize: int)
    requires cellSize > 0
    requires WellFormed(g, rows, cols)
    ensures var once := Step(g, rows, cols, cellSize, Clear);
            Step(once, rows, cols, cellSize, Clear) == once &&
            WellFormed(once, rows, cols) &&
            forall i, j :: 0 <= i < rows && 0 <= j < cols ==> once[i][j] == 0
  {
  }

  // ---------------------------------------------------------------------
  // Runs of actions

  /** Running `a + b` is running `a` and then `b`. */
  lemma {:induction false} RunAppend(g: Grid, rows: nat, cols: nat, cellSize: int, a: seq<Action>, b: seq<Action>)
    requires cellSize > 0
    requires WellFormed(g, rows, cols)
    ensures Run(g, rows, cols, cellSize, a + b) ==
            Run(Run(g, rows, cols, cellSize, a), rows, cols, cellSize, b)
    decreases |a|
  {
    if a != [] {
      assert (a + b)[0] == a[0];
      assert (a + b)[1..] == a[1..] + b;
      RunAppend(Step(g, rows, cols, cellSize, a[0]), rows, cols, cellSize, a[1..], b);
    } else {
      assert a + b == b;
    }
  }

  /** Every cell stays 0 or 1 through any sequence of toggles and clears. */
  lemma {:induction false} RunKeepsBinary(g: Grid, rows: nat, cols: nat, cellSize: int, acts: seq<Action>)
    requires cellSize > 0
    requires WellFormed(g, rows, cols) && Binary(g)
    ensures Binary(Run(g, rows, cols, cellSize, acts))
    decreases |acts|
  {
    if acts != [] {
      var next := Step(g, rows, cols, cellSize, acts[0]);
      if acts[0].Pointer? {
        ToggleRaises(g, rows, cols, cellSize, acts[0].x, acts[0].y);
      }
      RunKeepsBinary(next, rows, cols, cellSize, acts[1..]);
    }
  }

  /** Without a clear, no cell of a 0/1 grid ever decreases. */
  lemma {:induction false} RunWithoutClearRaises(g: Grid, rows: nat, cols: nat, cellSize: int, acts: seq<Action>)
    requires cellSize > 0
    requires WellFormed(g, rows, cols) && Binary(g)
    requires Clear !in acts
    ensures AtMost(g, Run(g, rows, cols, cellSize, acts))
    decreases |acts|
  {
    if acts != [] {
      var next := Step(g, rows, cols, cellSize, acts[0]);
      assert acts[0] in acts;
      ToggleRaises(g, rows, cols, cellSize, acts[0].x, acts[0].y);
      assert forall k :: 0 <= k < |acts[1..]| ==> acts[1..][k] == acts[k + 1];
      RunWithoutClearRaises(next, rows, cols, cellSize, acts[1..]);
      AtMostTransitive(g, next, Run(next, rows, cols, cellSize, acts[1..]));
    }
  }

  lemma AtMostTransitive(a: Grid, b: Grid, c: Grid)
    requires AtMost(a, b) && AtMost(b, c)
    ensures AtMost(a, c)
  {
  }

  /** Without a clear, a black cell stays black, whatever the other cells
      hold. */
  lemma {:induction false} RunWithoutClearKeepsOnes(g: Grid, rows: nat, cols: nat, cellSize: int, acts: seq<Action>, i: nat, j: nat)
    requires cellSize > 0
    requires WellFormed(g, rows, cols)
    requires i < rows && j < cols
    requires Clear !in acts && g[i][j] == 1
    ensures Run(g, rows, cols, cellSize, acts)[i][j] == 1
    decreases |acts|
  {
    if acts != [] {
      var next := Step(g, rows, cols, cellSize, acts[0]);
      assert acts[0] in acts;
      ToggleEffect(g, rows, cols, cellSize, acts[0].x, acts[0].y);
      assert Clear !in acts[1..] by {
        assert forall k :: 0 <= k < |acts[1..]| ==> acts[1..][k] == acts[k + 1];
      }
      RunWithoutClearKeepsOnes(next, rows, cols, cellSize, acts[1..], i, j);
    }
  }

  /** Clearing is the only way a black cell turns white again. */
  lemma ZeroingNeedsClear(g: Grid, rows: nat, cols: nat, cellSize: int, acts: seq<Action>, i: nat, j: nat)
    requires cellSize > 0
    requires WellFormed(g, rows, cols)
    requires i < rows && j < cols
    requires g[i][j] == 1 && Run(g, rows, cols, cellSize, acts)[i][j] == 0
    ensures Clear in acts
  {
    if Clear !in acts {
      RunWithoutClearKeepsOnes(g, rows, cols, cellSize, acts, i, j);
    }
  }

  /** Whatever happened before, a clear at the end leaves the all-zero grid. */
  lemma RunEndingInClear(g: Grid, rows: nat, cols: nat, cellSize: int, acts: seq<Action>)
    requires cellSize > 0
    requires WellFormed(g, rows, cols)
    ensures forall i, j :: 0 <= i < rows && 0 <= j < cols ==>
              Run(g, rows, cols, cellSize, acts + [Clear])[i][j] == 0
  {
    RunAppend(g, rows, cols, cellSize, acts, [Clear]);
  }
}
