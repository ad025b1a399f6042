# Pascal's triangle, plain and modulo — a Dafny model

`pascal_modn.py` draws Pascal's triangle on a square tkinter canvas. `PascalTriangle`
writes each binomial coefficient as text. `PascalTriangleMod2` paints one square per
coefficient instead. Its colour depends on the coefficient's residue modulo a counter
`z`, and that counter goes up by one on every `fill_row` call.

This project models the computational core of that file:

- `compute_new_row`, the row recurrence. It is `Rows.NextRow`, and `Rows.RowAt` gives the
  row that `build` hands over at each `current_index`.
- The constructor's `step = int(size_canvas / nbr_rows)` and the errors the constructor
  can raise (`Geometry.Init`).
- The rectangle each cell occupies (`Geometry.CellRect`).
- Both `fill_row` variants. Draw calls become returned lists of `Render.Label` or
  `Render.Cell`, and an `IndexError` becomes an `Err` (`Render.FillRowNumeric`,
  `Render.FillRowMod`).
- In the modulo variant: the classifier `binary_row` (`Render.Classify`), the
  1000-entry palette (`Render.PaletteLookup`) and the counter `z`.
- The `build` loop, once per variant (`Build.BuildNumeric`, `Build.BuildModulo`).

Each driver is proved equal to an independent description of the picture:

- `Build.NumericPicture` for the plain variant.
- `Build.ModuloRun` / `Build.ModuloPicture` for the modulo variant.

These descriptions are written in terms of binomial coefficients (`Binomial.Choose`),
not of the loop.

Modules: `Outcomes` (errors and `Result`), `Arith` (a shared multiplication fact),
`Binomial`, `Rows`, `Geometry`, `Render`, `Build`.

## Rows and columns

The build loop starts `current_row` at `[1]` for `current_index` 1 and extends it by one
entry per iteration. So the row handed to `fill_row` at `current_index` k has exactly k
entries, C(k-1, 0..k-1), and `range(current_index)` draws every one of them (see
`Rows.RowAtIsBinomial`, `Build.BuildNumeric` and `Build.BuildModulo`).

## Model

| member | source | states |
|---|---|---|
| Rows.NextRow | pascal_modn.py:54 | the new row is one entry longer (two entries for an empty row), starts and ends with 1, and its interior entry i is the sum of entries i-1 and i of the old row |
| Rows.RowAtIsBinomial | pascal_modn.py:72-75 | the row handed to fill_row at current_index k has exactly k entries, and entry j is the binomial coefficient C(k-1, j) |
| Rows.RowAtEntry | pascal_modn.py:72-75 | one entry of that row: entry j of row k is C(k-1, j) |
| Rows.RowAtSymmetric | pascal_modn.py:72-75 | every row the loop produces is a palindrome |
| Rows.BinomialEntriesMirror | pascal_modn.py:72-75 | any row of k binomial coefficients C(k-1, ·) reads the same from both ends |
| Rows.FirstRows | pascal_modn.py:72-75 | the first four rows drawn are [1], [1,1], [1,2,1], [1,3,3,1], and the row computed after them is [1,4,6,4,1] |
| Rows.RowAfter | pascal_modn.py:54 | one step of the recurrence from a known row gives any row that has the next row's length, end entries and interior sums |
| Binomial.ChooseTimesFactorials | pascal_modn.py:54 | the additive recurrence that compute_new_row follows yields C(n, k) = n! / (k! (n-k)!) |
| Binomial.ChooseSymmetric | pascal_modn.py:54 | C(n, k) = C(n, n-k) |
| Binomial.ChooseAboveIsZero | pascal_modn.py:54 | C(n, k) = 0 beyond the end of row n |
| Binomial.ChooseDiagonal | pascal_modn.py:54 | C(n, n) = 1, the closing 1 of each row |
| Geometry.TruncDiv | pascal_modn.py:36 | int(a / b): the magnitude is the floor of the magnitudes' quotient, a non-zero result has the sign of the product of the signs, and for non-negative a and positive b the result q satisfies q*b <= a < (q+1)*b |
| Geometry.Init | pascal_modn.py:15-41 | the constructor raises ZeroDivisionError exactly when nbr_rows is 0; otherwise step is int(size_canvas / nbr_rows), and range() in create_grid raises ValueError exactly when that step is 0, which (dividing exactly) happens exactly when abs(size_canvas) < abs(nbr_rows); in every other case it succeeds, and when 0 < nbr_rows <= size_canvas the step satisfies step >= 1 and step*nbr_rows <= size_canvas < (step+1)*nbr_rows |
| Geometry.EntryPointStep | pascal_modn.py:122 | 800 rows on the 1600-pixel canvas give a step of 2, and on the default 1500-pixel canvas a step of 1 |
| Geometry.CellIsGridSquare | pascal_modn.py:116-118 | cell (k, c) is the step-by-step square whose top-left corner is (c*step, (k-c-1)*step) |
| Geometry.CellsDisjoint | pascal_modn.py:115-118 | two different cells never cover the same pixel |
| Geometry.CellOnCanvas | pascal_modn.py:115-118 | every cell of every drawn row lies inside the canvas |
| Geometry.GridSquareCell | pascal_modn.py:115-118 | conversely, each grid square with gx + gy < nbr_rows (the top-left half of the canvas, anti-diagonal included) is painted by exactly one cell, (gx+gy+1, gx) |
| Render.PaletteLookup | pascal_modn.py:95-96 | colors[i] succeeds exactly for i < 1000, raises IndexError otherwise, and is black exactly at index 0 |
| Render.Residue | pascal_modn.py:110 | nbr % z lies in [0, z) |
| Render.ResidueIsRemainder | pascal_modn.py:110 | the model's residue is Python's % for a non-negative entry and a positive counter |
| Render.Classify | pascal_modn.py:107-110 | binary_row is [0] while z is 0, and otherwise has one entry per row entry, each the entry's residue mod z and so below z |
| Render.DrawCells | pascal_modn.py:115-119 | the row completes exactly when every column up to current_index reads an existing binary_row entry that indexes the palette; the first failure is an IndexError; the cells drawn are the column rectangles in order, each in the palette colour of its residue |
| Render.FillRowMod | pascal_modn.py:98-119 | the counter goes up by one on every call, even a failing one; with z = 0 only a one-column row can be drawn; with z > 0 the row is drawn exactly when it is long enough and every residue is below 1000; a drawn cell c is the rectangle of column c, black when z = 0 and otherwise in the palette colour of row[c] % z |
| Render.DrawLabels | pascal_modn.py:65-68 | the labels of columns col..k-1, in order, each holding the row entry at the centre position (in half-pixel units); reading past the end of the row raises IndexError |
| Render.FillRowNumeric | pascal_modn.py:56-68 | the plain fill_row raises no IndexError exactly when the row has at least current_index entries, and then writes entry c in label c |
| Render.LabelAtCellCentre | pascal_modn.py:65-68 | the plain variant's text sits at the centre of the square the modulo variant paints for the same cell |
| Build.ExpectedColourIsDivisibility | pascal_modn.py:107-119 | a cell is black exactly on the first row, or when C(k-1, c) % (k-1) == 0 |
| Build.SecondRowIsBackground | pascal_modn.py:107-119 | the second row, classified with z = 1, is entirely black |
| Build.ThirdRowColours | pascal_modn.py:107-119 | the third row [1, 2, 1], classified with z = 2, is yellow, black, yellow |
| Build.ExpectedColourMirrored | pascal_modn.py:107-119 | every painted row's colours read the same from both ends |
| Build.FillRowNumericOnRow | pascal_modn.py:65-75 | on the row the loop hands it, the plain fill_row raises no IndexError and writes all k coefficients of row k at their cell centres |
| Build.ClassifiedRow | pascal_modn.py:107-110 | binary_row for row k with counter k-1 has k entries; column c has a palette entry exactly when its residue is below 1000; and its colour is the expected one |
| Build.PaintedRowIsExpected | pascal_modn.py:115-119 | a row painted without error is painted in the expected colours |
| Build.FillRowModOnBinomialRow | pascal_modn.py:98-119 | on a row of binomial coefficients entered with counter k-1, fill_row leaves the counter at k; it succeeds exactly when every residue has a palette entry (and then paints the expected cells), and otherwise raises IndexError |
| Build.ModuloRunOutcome | pascal_modn.py:70-75 | the reference run over n rows completes exactly when every lookup is in range, and then has the counter at n and the expected picture; otherwise it stopped at the first row z whose residues overflow the palette, with every earlier row safe |
| Build.FailureIsFinal | pascal_modn.py:73-74 | once a call raises, no later row is reached |
| Build.SmallTrianglesArePaletteSafe | pascal_modn.py:95-112 | with at most 1001 rows, every residue is below the counter and so below 1000, and no lookup fails |
| Build.BuildNumeric | pascal_modn.py:70-75 | the plain build raises no IndexError, and for each current_index k draws the k coefficients C(k-1, 0..k-1) at their cell centres |
| Build.PaintRowMod | pascal_modn.py:98-119 | one modulo call inside the loop: the counter enters at k-1 and leaves at k; the row is painted as expected exactly when its residues fit the palette; otherwise the call raises IndexError |
| Build.ModuloLoop | pascal_modn.py:70-75 | the modulo build loop follows the reference run row by row: it keeps the counter at k-1 before the call for index k and stops at the first call that raises |
| Build.BuildModulo | pascal_modn.py:70-119 | the modulo build completes exactly when every palette lookup is in range, which always holds for at most 1001 rows; it then paints every cell in its expected colour, with z ending at the number of iterations (nbr_rows, or 0 when nbr_rows is negative); otherwise it raises IndexError at the first overflowing row, with the counter already incremented past it |

## Left out

- The tkinter window, canvas, `pack`, `mainloop` and `plot`: the drawing calls are
  returned as data (labels and cells) rather than performed.
- `create_grid`'s line drawing: only its failure (range() with a zero step) is
  modelled, inside `Geometry.Init`.
- Geometry.TruncDiv: computes the exact quotient truncated toward zero. The source's
  float division `size_canvas / nbr_rows` can round differently for very large operands.
- Geometry.Init: divides exactly, so its outcomes hold for operands below 2**53. Beyond
  that, float rounding can move the step-zero boundary: size 2**60-1 over 2**60 rows
  rounds to a step of 1, so range() does not raise, while the model reports the zero
  step. A quotient beyond the float range makes the source raise OverflowError, which
  the model does not raise.
- Render.DrawLabels: the text positions `col*step + step/2` are floats in the source.
  The model stores them doubled, as exact integers. The text conversion `str(...)` is
  represented by the number itself, so its failure is not modelled: recent Python
  versions refuse to convert an integer of more than 4300 digits and raise ValueError.
  With `size_canvas >= nbr_rows` this first happens at `current_index` 14293, where
  C(14292, 7146) has more than 4300 digits.
- Render.FillRowNumeric: promises only the absence of IndexError; the ValueError that
  `str()` raises on an entry of more than 4300 digits is not modelled.
- Build.FillRowNumericOnRow: likewise, the rows from `current_index` 14293 on hold
  entries whose `str()` raises ValueError on recent Python versions; the model draws them.
- Build.BuildNumeric: returns the whole picture for every configuration; with 14293 or
  more rows the source stops with ValueError from `str()` at `current_index` 14293.
- Colour names ('black', 'yellow') and the canvas background string become the
  two-valued `Render.Colour`; black is also the canvas background of the modulo variant.
- `self.n` is never read, so it is not modelled.
- The window title and the `__main__` block, beyond the configuration it uses
  (`Geometry.EntryPointStep`).
- Geometry.CellOnCanvas: assumes a positive canvas size and the step `Init` computes.
  A negative `nbr_rows` gives an empty loop, and a negative step puts cells off the
  canvas. `Init` decides the outcome and the step for those inputs, but no layout
  property is proved for them.
- Render.DrawCells and Build.ModuloRun: an `IndexError` in the middle of a row is
  returned as a bare `Err`. In the source, the rectangles of the earlier columns and
  rows are already on the canvas at that point. `plot` never packs or shows the canvas
  once `build` has raised, so the partial picture is never displayed.
- Build.ModuloLoop and Build.BuildModulo: the counter `z` starts at 0. This models
  `build` on a freshly constructed `PascalTriangleMod2`, which is how the program uses it.
  `self.z` is object state, so a second `build` on the same object would start from
  `z = nbr_rows`; that second call is not modelled.
