/** The drawing tool's state without its window: the pixel map it keeps as
    a list of rows, held in a field that pointer events and the Clear
    button reassign, and turned into text by the Save button. */
module PixelDrawing {
  import opened PixelGrid
  import opened PixelText

  class PixelDrawer {
    const rows: nat
    const cols: nat
    const cellSize: int
    /** `pixelMap[i][j]` is 0 (white) or 1 (black). */
    var pixelMap: Grid

    /** The object invariant: a positive cell size and a `rows` x `cols`
        map of 0/1 cells. */
    ghost predicate Valid()
      reads this
    {
      cellSize > 0 && WellFormed(pixelMap, rows, cols) && Binary(pixelMap)
    }

    /** A new drawer has an all-white map of the given size, by default
        30 x 30 cells of 20 pixels. */
    constructor (rows: nat := DefaultRows, cols: nat := DefaultCols, cellSize: int := DefaultCellSize)
      requires cellSize > 0
      ensures Valid()
      ensures this.rows == rows && this.cols == cols && this.cellSize == cellSize
      ensures pixelMap == Zeros(rows, cols)
      ensures forall i, j :: 0 <= i < rows && 0 <= j < cols ==> pixelMap[i][j] == 0
    {
      this.rows := rows;
      this.cols := cols;
      this.cellSize := cellSize;
      pixelMap := Zeros(rows, cols);
    }

    /** Press or drag at pixel (x, y): the cell under the pointer turns
        black; a pointer off the grid changes nothing. */
    method TogglePixel(x: int, y: int)
      requires Valid()
      modifies this
      ensures Valid()
      ensures pixelMap == Toggle(old(pixelMap), rows, cols, cellSize, x, y)
      ensures AtMost(old(pixelMap), pixelMap)
    {
      ToggleRaises(pixelMap, rows, cols, cellSize, x, y);
      var col := x / cellSize;
      var row := y / cellSize;
      if 0 <= row < rows && 0 <= col < cols {
        pixelMap := pixelMap[row := pixelMap[row][col := 1]];
      }
    }

    /** The Clear button: every cell, row by row, is set back to 0. */
    method ClearPixelMap()
      requires Valid()
      modifies this
      ensures Valid()
      ensures pixelMap == Zeros(rows, cols)
    {
      for i := 0 to rows
        invariant WellFormed(pixelMap, rows, cols)
        invariant forall r :: 0 <= r < i ==> pixelMap[r] == Zeros(rows, cols)[r]
      {
        for j := 0 to cols
          invariant WellFormed(pixelMap, rows, cols)
          invariant forall r :: 0 <= r < i ==> pixelMap[r] == Zeros(rows, cols)[r]
          invariant forall c :: 0 <= c < j ==> pixelMap[i][c] == 0
        {
          pixelMap := pixelMap[i := pixelMap[i][j := 0]];
        }
        assert pixelMap[i] == Zeros(rows, cols)[i];
      }
    }

    /** The Save button: the text written to the file, built row by row as
        `save_pixel_map` writes it (each row's line, then a newline). */
    method SavePixelMap() returns (text: string)
      requires Valid()
      ensures text == Serialise(pixelMap)
      ensures ParseGrid(text) == Some(pixelMap) || cols == 0
    {
      var g := pixelMap;
      text := "";
      for i := 0 to |g|
        invariant text == Serialise(g[..i])
      {
        var line := RowLine(g[i]);
        assert text + line + "\n" == Serialise(g[..i + 1]) by {
          SerialiseAppendRow(g[..i], g[i]);
          assert g[..i + 1] == g[..i] + [g[i]];
        }
        text := text + line + "\n";
      }
      assert g[..|g|] == g;
      if cols > 0 {
        SaveRoundTrip(g, rows, cols);
      }
    }
  }

  /** Saving one more row appends that row's line and a newline. */
  lemma {:induction false} SerialiseAppendRow(g: Grid, row: seq<int>)
    ensures Serialise(g + [row]) == Serialise(g) + RowLine(row) + "\n"
    decreases |g|
  {
    if g == [] {
      assert [row][1..] == [];
    } else {
      var h, first := g + [row], RowLine(g[0]) + "\n";
      calc {
        Serialise(h);
        { assert h[0] == g[0] && h[1..] == g[1..] + [row]; }
        first + Serialise(g[1..] + [row]);
        { SerialiseAppendRow(g[1..], row); }
        first + (Serialise(g[1..]) + RowLine(row) + "\n");
        (first + Serialise(g[1..])) + RowLine(row) + "\n";
        Serialise(g) + RowLine(row) + "\n";
      }
    }
  }
}
