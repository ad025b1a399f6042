/** PascalTriangle.build: start from [1], and for current_index = 1..nbr_rows hand the
    current row to fill_row, then replace it by compute_new_row of itself. One driver
    per fill_row variant; the modulo driver also carries the counter z. */
module Build {
  import opened Outcomes
  import opened Binomial
  import opened Rows
  import opened Geometry
  import opened Render

  /** Number of iterations of range(1, n + 1). */
  function Iterations(n: int): (r: nat)
  {
    if n > 0 then n else 0
  }

  /** What the plain variant should draw for row k: every entry C(k-1, c) of the row,
      each at the centre of its cell. */
  function ExpectedLabels(k: nat, step: int): (labels: seq<Label>)
    requires k >= 1
    ensures |labels| == k
    ensures forall c {:trigger labels[c]} :: 0 <= c < k ==>
      labels[c] == Label(2 * c * step + step, 2 * (k - c) * step - step, Choose(k - 1, c))
  {
    seq(k, c requires 0 <= c < k => Label(2 * c * step + step, 2 * (k - c) * step - step, Choose(k - 1, c)))
  }

  /** The colour of cell (k, c) in the modulo picture: background on the first row,
      where the counter is 0, and otherwise exactly when k-1 divides C(k-1, c). */
  function ExpectedColour(k: nat, c: nat): (r: Colour)
    requires k >= 1
  {
    if k == 1 || Residue(Choose(k - 1, c), k - 1) == 0 then Background else Foreground
  }

  /** A cell is drawn in the background colour exactly on the first row or when the
      counter k-1 divides the entry C(k-1, c), that is, when Python's % gives 0. */
  lemma ExpectedColourIsDivisibility(k: nat, c: nat)
    requires k >= 1
    ensures ExpectedColour(k, c) == Background <==> k == 1 || Choose(k - 1, c) % (k - 1) == 0
  {
    if k > 1 {
      ResidueIsRemainder(Choose(k - 1, c), k - 1);
    }
  }

  /** The second row is classified with counter 1, so both its cells are background. */
  lemma SecondRowIsBackground(c: nat)
    requires c < 2
    ensures ExpectedColour(2, c) == Background
  {
  }

  /** The third row [1, 2, 1] is classified with counter 2: odd, even, odd. */
  lemma ThirdRowColours()
    ensures ExpectedColour(3, 0) == Foreground
    ensures ExpectedColour(3, 1) == Background
    ensures ExpectedColour(3, 2) == Foreground
  {
    assert Choose(2, 1) == 2;
    ChooseDiagonal(2);
  }

  /** Every painted row reads the same from both ends. */
  lemma ExpectedColourMirrored(k: nat, c: nat)
    requires 1 <= k && c < k
    ensures ExpectedColour(k, c) == ExpectedColour(k, k - 1 - c)
  {
    ChooseSymmetric(k - 1, c);
  }

  /** What the modulo variant should draw for row k. */
  function ExpectedCells(k: nat, step: int): (cells: seq<Cell>)
    requires k >= 1
    ensures |cells| == k
    ensures forall c {:trigger cells[c]} :: 0 <= c < k ==> cells[c] == Cell(CellRect(k, c, step), ExpectedColour(k, c))
  {
    seq(k, c requires 0 <= c < k => Cell(CellRect(k, c, step), ExpectedColour(k, c)))
  }

  /** The plain picture of the first n rows, row by row. */
  function NumericPicture(n: nat, step: int): (p: seq<seq<Label>>)
    ensures |p| == n
    ensures forall i {:trigger p[i]} :: 0 <= i < n ==> p[i] == ExpectedLabels(i + 1, step)
  {
    if n == 0 then [] else NumericPicture(n - 1, step) + [ExpectedLabels(n, step)]
  }

  /** The modulo picture of the first n rows, row by row. */
  function ModuloPicture(n: nat, step: int): (p: seq<seq<Cell>>)
    ensures |p| == n
    ensures forall i {:trigger p[i]} :: 0 <= i < n ==> p[i] == ExpectedCells(i + 1, step)
  {
    if n == 0 then [] else ModuloPicture(n - 1, step) + [ExpectedCells(n, step)]
  }

  /** Cell (k, c) has a palette entry: its residue C(k-1, c) mod (k-1) is below 1000. */
  predicate ResidueFits(k: nat, c: nat)
    requires k >= 1
  {
    k == 1 || Residue(Choose(k - 1, c), k - 1) < PaletteSize
  }

  predicate RowFits(k: nat)
    requires k >= 1
  {
    forall c {:trigger ResidueFits(k, c)} :: 0 <= c < k ==> ResidueFits(k, c)
  }

  /** Every palette lookup of the first n rows stays in range. */
  predicate PaletteSafe(n: int)
  {
    n <= 0 || (PaletteSafe(n - 1) && RowFits(n))
  }

  /** The plain fill_row on the row the loop hands it at current_index k reads only
      existing entries and writes the whole row. */
  lemma FillRowNumericOnRow(k: nat, step: int)
    requires k >= 1
    ensures FillRowNumeric(RowAt(k), k, step) == Ok(ExpectedLabels(k, step))
  {
    RowAtIsBinomial(k);
    var r := FillRowNumeric(RowAt(k), k, step);
    var d := DrawLabels(RowAt(k), k, step, 0);
    assert r == d;
    assert d.Ok?;
    assert d.value == ExpectedLabels(k, step) by {
      forall c | 0 <= c < k
        ensures d.value[c] == ExpectedLabels(k, step)[c]
      {
        assert d.value[c] == Label(2 * (0 + c) * step + step, 2 * (k - 0 - c) * step - step, RowAt(k)[0 + c]);
      }
    }
  }

  /** A row holding C(k-1, 0..k-1), as the loop's row k does. */
  predicate BinomialRow(k: nat, row: Row)
    requires k >= 1
  {
    |row| == k && forall j :: 0 <= j < k ==> row[j] == Choose(k - 1, j)
  }

  /** binary_row for row k, classified with counter k-1, holds k residues: column c
      has a palette entry exactly when ResidueFits(k, c), and its entry is
      ExpectedColour(k, c). */
  lemma ClassifiedRow(k: nat, row: Row)
    requires k >= 1 && BinomialRow(k, row)
    ensures |Classify(k - 1, row)| == k
    ensures forall c :: 0 <= c < k ==> (Paintable(Classify(k - 1, row), c) <==> ResidueFits(k, c))
    ensures forall c :: 0 <= c < k ==> Shade(Classify(k - 1, row)[c]) == ExpectedColour(k, c)
  {
    var binary := Classify(k - 1, row);
    if k == 1 {
      assert binary == [0];
    } else {
      forall c | 0 <= c < k
        ensures binary[c] == Residue(Choose(k - 1, c), k - 1)
      {
      }
    }
  }

  /** When row k is painted without error, it is painted as expected. */
  lemma PaintedRowIsExpected(k: nat, row: Row, step: int)
    requires k >= 1 && BinomialRow(k, row)
    requires DrawCells(Classify(k - 1, row), k, step, 0).Ok?
    ensures DrawCells(Classify(k - 1, row), k, step, 0).value == ExpectedCells(k, step)
  {
    var binary := Classify(k - 1, row);
    var cells := DrawCells(binary, k, step, 0).value;
    ClassifiedRow(k, row);
    forall c | 0 <= c < k
      ensures cells[c] == ExpectedCells(k, step)[c]
    {
      assert cells[c] == Cell(CellRect(k, 0 + c, step), Shade(binary[0 + c]));
    }
  }

  /** The modulo fill_row on row k with counter k-1. */
  lemma FillRowModOnBinomialRow(k: nat, row: Row, step: int)
    requires k >= 1 && BinomialRow(k, row)
    ensures FillRowMod(k - 1, row, k, step).z == k
    ensures FillRowMod(k - 1, row, k, step).drawn.Ok? <==> RowFits(k)
    ensures FillRowMod(k - 1, row, k, step).drawn.Err? ==>
      FillRowMod(k - 1, row, k, step).drawn.error == PaletteIndexOutOfRange
    ensures FillRowMod(k - 1, row, k, step).drawn.Ok? ==>
      FillRowMod(k - 1, row, k, step).drawn.value == ExpectedCells(k, step)
  {
    var binary := Classify(k - 1, row);
    var d := DrawCells(binary, k, step, 0);
    assert FillRowMod(k - 1, row, k, step) == ModFill(k, d);
    ClassifiedRow(k, row);
    assert d.Ok? <==> forall c :: 0 <= c < k ==> Paintable(binary, c);
    if RowFits(k) {
      forall c | 0 <= c < k
        ensures Paintable(binary, c)
      {
        assert ResidueFits(k, c);
      }
    } else {
      var c :| 0 <= c < k && !ResidueFits(k, c);
      assert !Paintable(binary, c);
    }
    if d.Ok? {
      PaintedRowIsExpected(k, row, step);
    }
  }

  /** The state of the modulo driver after the calls for current_index 1..n: the
      counter and either the rows painted so far or the error that stopped it. */
  datatype ModRun = ModRun(z: nat, drawn: Result<seq<seq<Cell>>>)

  /** What the modulo driver should do over current_index 1..n, row by row: paint
      row n in its expected colours when all its residues have palette entries, and
      otherwise stop there with IndexError; once stopped, later rows are never
      reached. */
  function ModuloRun(n: nat, step: int): (r: ModRun)
  {
    if n == 0 then ModRun(0, Ok([]))
    else
      var prev := ModuloRun(n - 1, step);
      if prev.drawn.Err? then prev
      else if RowFits(n) then ModRun(n, Ok(prev.drawn.value + [ExpectedCells(n, step)]))
      else ModRun(n, Err(PaletteIndexOutOfRange))
  }

  /** What the run over n rows produces: it completes exactly when every lookup is in
      range, and then holds the expected picture with the counter at n; otherwise it
      stopped on the first row z with an out-of-range residue. */
  lemma {:induction false} ModuloRunOutcome(n: nat, step: int)
    ensures ModuloRun(n, step).drawn.Ok? <==> PaletteSafe(n)
    ensures ModuloRun(n, step).drawn.Ok? ==>
      ModuloRun(n, step).z == n && ModuloRun(n, step).drawn.value == ModuloPicture(n, step)
    ensures ModuloRun(n, step).drawn.Err? ==>
      ModuloRun(n, step).drawn.error == PaletteIndexOutOfRange &&
      1 <= ModuloRun(n, step).z <= n && PaletteSafe(ModuloRun(n, step).z - 1) &&
      !RowFits(ModuloRun(n, step).z)
  {
    if n > 0 {
      ModuloRunOutcome(n - 1, step);
      if ModuloRun(n - 1, step).drawn.Ok? {
        assert ModuloPicture(n, step) == ModuloPicture(n - 1, step) + [ExpectedCells(n, step)];
      }
    }
  }

  /** After a failing call the run stays where it stopped. */
  lemma {:induction false} FailureIsFinal(k: nat, n: nat, step: int)
    requires k <= n && ModuloRun(k, step).drawn.Err?
    ensures ModuloRun(n, step) == ModuloRun(k, step)
    decreases n
  {
    if k < n {
      FailureIsFinal(k, n - 1, step);
    }
  }

  /** On the first 1001 rows every residue is below the counter, which is at most 1000,
      so no palette lookup can fail. */
  lemma {:induction false} SmallTrianglesArePaletteSafe(n: int)
    requires n <= PaletteSize + 1
    ensures PaletteSafe(n)
    decreases n
  {
    if n > 0 {
      forall c | 0 <= c < n
        ensures ResidueFits(n, c)
      {
        if n > 1 {
          assert Residue(Choose(n - 1, c), n - 1) < n - 1;
        }
      }
      SmallTrianglesArePaletteSafe(n - 1);
    }
  }

  /** The plain driver: never raises, and draws, for each current_index k, all k
      entries C(k-1, 0..k-1) of the row it is handed. */
  method BuildNumeric(cfg: Config) returns (r: Result<seq<seq<Label>>>)
    ensures r == Ok(NumericPicture(Iterations(cfg.nbrRows), cfg.step))
  {
    var row: Row := [1];
    var drawn: seq<seq<Label>> := [];
    var k := 1;
    while k <= cfg.nbrRows
      invariant 1 <= k <= Iterations(cfg.nbrRows) + 1
      invariant row == RowAt(k)
      invariant drawn == NumericPicture(k - 1, cfg.step)
      decreases cfg.nbrRows + 1 - k
    {
      var labels := FillRowNumeric(row, k, cfg.step);
      FillRowNumericOnRow(k, cfg.step);
      assert NumericPicture(k, cfg.step) == drawn + [labels.value];
      assert RowAt(k + 1) == NextRow(row);
      drawn := drawn + [labels.value];
      row := NextRow(row);
      k := k + 1;
    }
    assert k - 1 == Iterations(cfg.nbrRows);
    r := Ok(drawn);
  }

  /** fill_row of PascalTriangleMod2 on the loop's row k, entered with counter k-1. */
  method PaintRowMod(z: nat, row: Row, k: nat, step: int) returns (fill: ModFill)
    requires k >= 1 && z == k - 1 && BinomialRow(k, row)
    ensures fill.z == k
    ensures fill.drawn.Ok? <==> RowFits(k)
    ensures fill.drawn.Err? ==> fill.drawn.error == PaletteIndexOutOfRange
    ensures fill.drawn.Ok? ==> fill.drawn.value == ExpectedCells(k, step)
  {
    fill := FillRowMod(z, row, k, step);
    FillRowModOnBinomialRow(k, row, step);
  }

  /** The loop of the modulo driver: the counter z enters the call for current_index
      k as k-1 and leaves it as k, and the loop follows the reference run row by row,
      stopping at the first call that raises. */
  method ModuloLoop(cfg: Config) returns (r: Result<seq<seq<Cell>>>, z: nat)
    ensures ModRun(z, r) == ModuloRun(Iterations(cfg.nbrRows), cfg.step)
  {
    var row: Row := [1];
    var drawn: seq<seq<Cell>> := [];
    z := 0;
    var k := 1;
    while k <= cfg.nbrRows
      invariant 1 <= k <= Iterations(cfg.nbrRows) + 1
      invariant row == RowAt(k)
      invariant z == k - 1
      invariant ModuloRun(k - 1, cfg.step) == ModRun(z, Ok(drawn))
      decreases cfg.nbrRows + 1 - k
    {
      RowAtIsBinomial(k);
      var fill := PaintRowMod(z, row, k, cfg.step);
      z := fill.z;
      if fill.drawn.Err? {
        r := Err(fill.drawn.error);
        assert ModuloRun(k, cfg.step) == ModRun(z, r);
        FailureIsFinal(k, Iterations(cfg.nbrRows), cfg.step);
        return;
      }
      assert ModuloRun(k, cfg.step) == ModRun(z, Ok(drawn + [fill.drawn.value]));
      assert RowAt(k + 1) == NextRow(row);
      drawn := drawn + [fill.drawn.value];
      row := NextRow(row);
      k := k + 1;
    }
    assert k - 1 == Iterations(cfg.nbrRows);
    r := Ok(drawn);
  }

  /** The modulo driver. The run completes exactly when every palette lookup is in
      range (always, for at most 1001 rows), and then row k is painted in its expected
      colours with the counter ending at nbr_rows; otherwise it stops with IndexError
      at the first row with an out-of-range residue, the counter already past it. */
  method BuildModulo(cfg: Config) returns (r: Result<seq<seq<Cell>>>, z: nat)
    ensures ModRun(z, r) == ModuloRun(Iterations(cfg.nbrRows), cfg.step)
    ensures r.Ok? <==> PaletteSafe(cfg.nbrRows)
    ensures cfg.nbrRows <= PaletteSize + 1 ==> r.Ok?
    ensures r.Ok? ==> z == Iterations(cfg.nbrRows)
    ensures r.Ok? ==> r.value == ModuloPicture(Iterations(cfg.nbrRows), cfg.step)
    ensures r.Err? ==> r.error == PaletteIndexOutOfRange
    ensures r.Err? ==> 1 <= z <= cfg.nbrRows && PaletteSafe(z - 1) && !RowFits(z)
  {
    r, z := ModuloLoop(cfg);
    ModuloRunOutcome(Iterations(cfg.nbrRows), cfg.step);
    if cfg.nbrRows <= PaletteSize + 1 {
      SmallTrianglesArePaletteSafe(cfg.nbrRows);
    }
  }
}
