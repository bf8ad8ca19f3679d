# Pixel map drawer — a verified model of its grid

The tool is a small desktop program: a window shows a `rows` x `cols` grid
of square cells, `cellSize` pixels each (30 x 30 cells of 20 pixels by
default). Pressing or dragging the mouse paints the cell under the pointer
black. A Clear button turns every cell white again. A Save button writes the
grid to `pixel_map.txt` as text: one line per row, the row's values
separated by single spaces, each line ended by a newline.

This project models the part of the `PixelDrawer` class that holds and
changes that grid, with the window taken away:

- `grid.dfy`, module `PixelGrid`: the grid as a value. It defines the
  all-zero grid, the pointer-to-cell mapping (`CellIndex`, Python's floor
  division `//`) and the pointer event (`Toggle`). It also defines a run of
  user actions (`Action`, `Step`, `Run`). Lemmas prove the mapping, the
  effect of a toggle, idempotence, monotonicity, the 0/1 invariant and the
  role of Clear.
- `text.dfy`, module `PixelText`: the saved text. `IntToString` is `str`,
  `Join` is `str.join` and `RowLine` is one saved line. `Serialise` is the
  whole file content. There is also a reference reader: `Split(s, sep)` is
  `s.split(sep)` and `ParseGrid` reads the text back. Lemmas prove the line and
  token layout, the length of a saved 0/1 grid, and that reading the text
  gives the grid back.
- `drawer.dfy`, module `PixelDrawing`: the class `PixelDrawer`. Its field
  `pixelMap` is the Python list of lists, held as a sequence of rows.
  `TogglePixel` and `ClearPixelMap` reassign that field, cell by cell.
  `ClearPixelMap` uses `clear_pixel_map`'s nested row/column loops.
  `SavePixelMap` uses `save_pixel_map`'s `for row in pixel_map` loop and returns the text it
  would write. Each method is proved against the functions of the other two
  modules.

The program stores integer 0/1 cells, not floating-point intensities. It
writes to the fixed file name `pixel_map.txt`. Clearing changes the cells
and repaints them, and reports nothing back to its caller.

## Model

| member | source | states |
|---|---|---|
| `PixelDrawing.PixelDrawer.constructor` | main.py:5-16 | a new drawer keeps the given rows, cols and cell size (by default 30, 30 and 20), and its map has `rows` rows of `cols` cells, all 0 |
| `PixelGrid.Zeros` | main.py:16 | the initial (and cleared) map has exactly `rows` rows of `cols` cells, every one 0 |
| `PixelGrid.CellIndex` | main.py:48-49 | `p // cellSize` is the index k with `k*cellSize <= p < k*cellSize + cellSize` (floor division, negative for a negative coordinate) |
| `PixelGrid.CellIndexUnique` | main.py:23-26 | a coordinate lies in the pixel span the canvas draws for cell k (`x1 = j*cell_size`, `x2 = x1 + cell_size`) if and only if k is its floor-divided index |
| `PixelGrid.OnGrid` | main.py:50 | the bounds test `0 <= row < rows and 0 <= col < cols` passes exactly when the pointer lies on the `cols*cellSize` by `rows*cellSize` canvas; negative coordinates fail it |
| `PixelGrid.Toggle` | main.py:48-52 | a pointer event keeps the grid `rows` x `cols`, and a cell that changes is the in-bounds cell the pointer maps to and becomes 1; `ToggleEffect` gives every cell exactly |
| `PixelGrid.ToggleEffect` | main.py:46-52 | after a pointer event, cell (i, j) is 1 if the pointer is on the grid and maps to (i, j), and otherwise is what it was; the dimensions do not change |
| `PixelGrid.ToggleHitsPointedCell` | main.py:48-52 | the cell whose drawn rectangle contains the pointer becomes 1 |
| `PixelGrid.ToggleOffCanvas` | main.py:50 | a pointer off the canvas, negative coordinates included, leaves the grid unchanged |
| `PixelGrid.ToggleIdempotent` | main.py:52 | two pointer events at the same pixel give the same grid as one |
| `PixelGrid.ToggleRaises` | main.py:52 | on a 0/1 grid a pointer event keeps every cell 0 or 1 and lowers no cell |
| `PixelGrid.ClearIdempotent` | main.py:57-61 | clearing gives the all-zero grid of unchanged dimensions whatever came before, so clearing twice equals clearing once |
| `PixelGrid.Step` | main.py:40-44 | a press, a drag or the Clear button keeps the grid `rows` x `cols` |
| `PixelGrid.Run` | main.py:40-61 | any sequence of presses, drags and clears keeps the grid `rows` x `cols` |
| `PixelGrid.RunAppend` | main.py:40-61 | performing the actions `a + b` is performing `a` and then `b` |
| `PixelGrid.RunKeepsBinary` | main.py:46-61 | every cell stays 0 or 1 across any sequence of pointer events and clears |
| `PixelGrid.RunWithoutClearRaises` | main.py:46-52 | without a clear, no cell of a 0/1 grid ever decreases |
| `PixelGrid.RunWithoutClearKeepsOnes` | main.py:46-52 | on any grid, without a clear, a cell that is 1 stays 1 |
| `PixelGrid.ZeroingNeedsClear` | main.py:57-61 | on any grid, 0/1 or not, a cell that goes from 1 to 0 over a sequence of actions implies a clear among them |
| `PixelGrid.RunEndingInClear` | main.py:59-61 | whatever happened before, a final clear leaves every cell 0 |
| `PixelText.NatToString` | main.py:71 | the decimal numeral of a natural number has at least one digit, only digits, and no leading zero unless it is `"0"` |
| `PixelText.IntToString` | main.py:71 | `str(val)` is non-empty, holds no space and no newline, and reading it back gives `val`, for every integer; it is canonical: a minus sign exactly for negatives, no leading zero, `"0"` the only numeral starting with 0 |
| `PixelText.Tokens` | main.py:71 | `str(val) for val in row` has one token per cell; token j holds no space or newline and reads back as cell j |
| `PixelText.Join` | main.py:71 | every character of `sep.join(parts)` other than `sep` comes from some part; `SplitJoin` shows that splitting the join gives the parts back when there is at least one part |
| `PixelText.RowLine` | main.py:71 | a saved line holds no newline, and it is empty only for an empty row; `LineFormat` gives the tokens of a non-empty row |
| `PixelText.Serialise` | main.py:70-72 | the saved text is empty only for a grid without rows, and each row adds at least its newline (`|text| >= rows`); `TextLines`, `TextFormat` and `SaveRoundTrip` give its lines, tokens and inverse |
| `PixelText.SplitJoin` | main.py:71 | splitting `sep.join(parts)` on `sep` gives back the parts, when there is at least one part and no part holds `sep` (`"".split(sep)` is `[""]`, not `[]`) |
| `PixelText.LineFormat` | main.py:71 | a saved line holds no newline, and, for a non-empty row, it splits on spaces into exactly its tokens, token j being `str(row[j])` (an empty row's line splits into one empty token) |
| `PixelText.TextLines` | main.py:70-72 | for every grid, empty rows included, the saved text splits on newlines into the rows' lines in order, then one empty piece: every line, the last included, ends in a newline |
| `PixelText.TextFormat` | main.py:70-72 | the text has `rows` newline-terminated lines, each line has `cols` space-separated tokens, and token j of line i is `str(pixel_map[i][j])`, for a grid whose rows are non-empty (`cols >= 1`; an empty row's line splits into one empty token) |
| `PixelText.SaveRoundTrip` | main.py:70-72 | splitting the saved text on newlines and spaces and reading the tokens gives back the grid (every row non-empty) |
| `PixelText.BinaryTextLength` | main.py:70-72 | a saved 0/1 grid with non-empty rows (`cols >= 1`) is exactly `2 * rows * cols` characters long; an empty row still costs its newline |
| `PixelDrawing.PixelDrawer.TogglePixel` | main.py:46-52 | the new map is the pointer event applied to the old map (only the pointed cell, set to 1), no cell decreases, and the invariant holds |
| `PixelDrawing.PixelDrawer.ClearPixelMap` | main.py:57-61 | after the nested loops the map is the all-zero grid of the same dimensions |
| `PixelDrawing.PixelDrawer.SavePixelMap` | main.py:70-72 | the text built row by row equals the saved text of the map, and, when `cols >= 1`, the reader gives the map back from it |
| `PixelDrawing.SerialiseAppendRow` | main.py:70-72 | writing one more row appends that row's line and a newline to the text |

## Left out

- The tkinter window is not modelled: the canvas, the rectangle per cell and its id table, fill colours, the Save and Clear buttons, the mouse bindings and the main loop (main.py:1-2, 11-13, 17-22, 27-38, 53-55, 62-63, 77-81). They are user-interface calls into a toolkit that is not part of this model. The geometry of the drawn rectangles (main.py:23-26) is kept: `InSpan` and `CellIndexUnique` model it.
- `on_mouse_down` and `on_mouse_drag` (main.py:40-44) both call `toggle_pixel`. They appear only as the `Pointer` action of `PixelGrid.Step`.
- File output is not modelled: opening `pixel_map.txt`, the `try`/`except` around it and the message boxes (main.py:67-69, 73-75). `SavePixelMap` returns the text that would be written. A failed write cannot be expressed in the model.
- PixelDrawing.PixelDrawer.constructor: takes `rows` and `cols` as natural numbers and requires `cellSize > 0`. Python accepts negative sizes: a negative `rows` gives no rows, and a negative `cols` gives `rows` empty rows. A zero cell size fails with a division error at the first pointer event. A negative cell size divides with a negative divisor. None of these cases is modelled.
- PixelText.SaveRoundTrip: holds only when every row has at least one cell. An empty row is saved as an empty line, and splitting that line gives one empty token.
- PixelText.TextFormat: holds only when every row has at least one cell (`cols >= 1`). With `cols == 0` each saved line is empty, and splitting it gives one empty token, not zero.
- PixelText.BinaryTextLength: holds only when `cols >= 1`. With `cols == 0` the text is one newline per row, `rows` characters rather than 0.
- PixelText.SplitJoin: holds only for at least one part, because splitting the empty string gives one empty piece.
- PixelText.LineFormat: the token clause holds only for a non-empty row, because an empty row's line splits into one empty token.
- PixelDrawing.PixelDrawer.SavePixelMap: the read-back clause holds only when `cols >= 1`; with `cols == 0` and at least one row the reader finds an empty token and gives nothing back.
- `ParseGrid` and `Split` are a reference reader written for the round trip. The program itself never reads the file back.
- Soft-brush falloff, floating-point intensities and colour mapping do not appear in this program's code, so they are not modelled.
