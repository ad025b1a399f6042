/** The two fill_row variants: PascalTriangle.fill_row writes each value as text, and
    PascalTriangleMod2.fill_row paints each cell in one of two palette colours chosen
    by the value's residue modulo a per-row counter z. Draw calls become the returned
    list of labels or cells. */
module Render {
  import opened Outcomes
  import opened Rows
  import opened Geometry
  import opened Arith

  /** The palette's two colours: index 0 is 'black', the canvas background of
      PascalTriangleMod2; every other index is 'yellow'. */
  datatype Colour = Background | Foreground

  /** Number of entries of the colors list. */
  const PaletteSize: nat := 1000

  /** The colour a palette entry holds, for an index already known to be in range. */
  function Shade(i: nat): (r: Colour)
  {
    if i == 0 then Background else Foreground
  }

  /** colors[i] for a residue i >= 0. */
  function PaletteLookup(i: nat): (r: Result<Colour>)
    ensures r.Ok? <==> i < PaletteSize
    ensures r.Err? ==> r.error == PaletteIndexOutOfRange
    ensures r.Ok? ==> (r.value == Background <==> i == 0)
  {
    if i >= PaletteSize then Err(PaletteIndexOutOfRange)
    else Ok(Shade(i))
  }

  /** Python's x % m for x >= 0 and m > 0, written as repeated subtraction so that
      the model's contracts stay within linear arithmetic. */
  function Residue(x: nat, m: nat): (r: nat)
    requires m > 0
    ensures r < m
    decreases x
  {
    if x < m then x else Residue(x - m, m)
  }

  /** Residue is the remainder of Euclidean division, which Python's % computes for
      a non-negative dividend and a positive modulus. */
  lemma {:induction false} ResidueIsRemainder(x: nat, m: nat)
    requires m > 0
    ensures Residue(x, m) == x % m
    decreases x
  {
    if x >= m {
      ResidueIsRemainder(x - m, m);
      var q, r := (x - m) / m, (x - m) % m;
      assert x - m == q * m + r;
      assert x == (q + 1) * m + r;
      RemainderUnique(x, m, q + 1, r);
    } else {
      RemainderUnique(x, m, 0, x);
    }
  }

  /** Writing x as q*m + r with 0 <= r < m determines r as x % m. */
  lemma RemainderUnique(x: int, m: int, q: int, r: int)
    requires m > 0 && 0 <= r < m && x == q * m + r
    ensures x % m == r
  {
    var q0 := x / m;
    assert x == q0 * m + x % m;
    if q0 < q {
      assert (q0 + 1) * m == q0 * m + m;
      MulMonotonic(q0 + 1, q, m);
    } else if q < q0 {
      assert (q + 1) * m == q * m + m;
      MulMonotonic(q + 1, q0, m);
    }
  }

  /** binary_row: [0] while the counter is still 0, otherwise the residue of every
      entry of the row modulo z. */
  function Classify(z: nat, row: Row): (b: seq<nat>)
    ensures z == 0 ==> b == [0]
    ensures z > 0 ==> |b| == |row|
    ensures z > 0 ==> forall i {:trigger b[i]} :: 0 <= i < |b| ==> b[i] < z && b[i] == Residue(row[i], z)
  {
    if z == 0 then [0] else seq(|row|, i requires 0 <= i < |row| => Residue(row[i], z))
  }

  /** A filled rectangle and the colour used for both its fill and its outline. */
  datatype Cell = Cell(rect: Rect, colour: Colour)

  /** Column c can be painted: binary_row[c] exists and indexes the palette. */
  predicate Paintable(binary: seq<nat>, c: int)
  {
    0 <= c < |binary| && binary[c] < PaletteSize
  }

  /** The rectangles for columns col..k-1 of the row with current_index k. Each column
      first reads binary_row[col] and then colors[binary_row[col]]; the first read that
      is out of range raises IndexError and ends the row. */
  function DrawCells(binary: seq<nat>, k: int, step: int, col: nat): (r: Result<seq<Cell>>)
    ensures r.Ok? <==> forall c :: col <= c < k ==> Paintable(binary, c)
    ensures r.Err? ==> r.error == RowIndexOutOfRange || r.error == PaletteIndexOutOfRange
    ensures r.Err? && k <= |binary| ==> r.error == PaletteIndexOutOfRange
    ensures r.Ok? ==> k <= col || k <= |binary|
    ensures r.Ok? ==> |r.value| == (if col < k then k - col else 0)
    ensures r.Ok? ==> forall j {:trigger r.value[j]} :: 0 <= j < |r.value| ==>
      r.value[j] == Cell(CellRect(k, col + j, step), Shade(binary[col + j]))
    decreases k - col
  {
    if k <= col then Ok([])
    else if |binary| <= col then
      assert !Paintable(binary, col);
      Err(RowIndexOutOfRange)
    else
      match PaletteLookup(binary[col])
      case Err(e) =>
        assert !Paintable(binary, col);
        Err(e)
      case Ok(colour) =>
        var rest := DrawCells(binary, k, step, col + 1);
        if rest.Err? then rest
        else Ok([Cell(CellRect(k, col, step), colour)] + rest.value)
  }

  /** What one call of PascalTriangleMod2.fill_row leaves behind: the counter after
      the call, and the cells drawn or the exception raised. */
  datatype ModFill = ModFill(z: nat, drawn: Result<seq<Cell>>)

  /** PascalTriangleMod2.fill_row: classify the row with the current counter, count
      the call, then draw columns 0..k-1. The counter has already moved on when a
      lookup fails. */
  function FillRowMod(z: nat, row: Row, k: int, step: int): (r: ModFill)
    ensures r.z == z + 1
    ensures r.drawn.Ok? ==> |r.drawn.value| == (if k > 0 then k else 0)
    ensures z == 0 ==> (r.drawn.Ok? <==> k <= 1)
    ensures z > 0 ==> (r.drawn.Ok? <==>
      k <= |row| && forall c :: 0 <= c < k ==> Residue(row[c], z) < PaletteSize)
    ensures r.drawn.Ok? ==> forall c {:trigger r.drawn.value[c]} :: 0 <= c < k ==>
      r.drawn.value[c].rect == CellRect(k, c, step) &&
      r.drawn.value[c].colour == (if z == 0 then Background else Shade(Residue(row[c], z)))
  {
    var binary := Classify(z, row);
    var drawn := DrawCells(binary, k, step, 0);
    if z == 0 && k > 1 then
      assert !Paintable(binary, 1);
      ModFill(z + 1, drawn)
    else if z > 0 && k > |row| then
      assert !Paintable(binary, |row|);
      ModFill(z + 1, drawn)
    else
      assert z > 0 ==> forall c :: 0 <= c < k ==> (Paintable(binary, c) <==> Residue(row[c], z) < PaletteSize);
      ModFill(z + 1, drawn)
  }

  /** A text label at twice its real position, so that the half-step offsets stay
      integers: the text is centred at (x2 / 2, y2 / 2). */
  datatype Label = Label(x2: int, y2: int, value: nat)

  /** The labels for columns col..k-1 of PascalTriangle.fill_row: the text of
      current_row[col] centred at (col*step + step/2, (k-col)*step - step/2).
      Reading past the end of the row raises IndexError. */
  function DrawLabels(row: Row, k: int, step: int, col: nat): (r: Result<seq<Label>>)
    ensures r.Ok? <==> k <= |row| || k <= col
    ensures r.Err? ==> r.error == RowIndexOutOfRange
    ensures r.Ok? ==> |r.value| == (if col < k then k - col else 0)
    ensures r.Ok? ==> forall j {:trigger r.value[j]} :: 0 <= j < |r.value| ==>
      r.value[j] == Label(2 * (col + j) * step + step, 2 * (k - col - j) * step - step, row[col + j])
    decreases k - col
  {
    if k <= col then Ok([])
    else if |row| <= col then Err(RowIndexOutOfRange)
    else
      var rest := DrawLabels(row, k, step, col + 1);
      if rest.Err? then rest
      else Ok([Label(2 * col * step + step, 2 * (k - col) * step - step, row[col])] + rest.value)
  }

  /** PascalTriangle.fill_row. */
  function FillRowNumeric(row: Row, k: int, step: int): (r: Result<seq<Label>>)
    ensures r.Ok? <==> k <= |row|
    ensures r.Ok? ==> |r.value| == (if k > 0 then k else 0)
    ensures r.Ok? ==> forall c {:trigger r.value[c]} :: 0 <= c < k ==> r.value[c].value == row[c]
  {
    DrawLabels(row, k, step, 0)
  }

  /** The plain variant writes each value at the centre of the square the modulo
      variant paints for the same row and column. */
  lemma LabelAtCellCentre(k: int, c: int, step: int)
    requires step > 0
    ensures 2 * c * step + step == CellRect(k, c, step).Left() + CellRect(k, c, step).Right()
    ensures 2 * (k - c) * step - step == CellRect(k, c, step).Top() + CellRect(k, c, step).Bottom()
    ensures 2 * CellRect(k, c, step).Left() < 2 * c * step + step < 2 * CellRect(k, c, step).Right()
    ensures 2 * CellRect(k, c, step).Top() < 2 * (k - c) * step - step < 2 * CellRect(k, c, step).Bottom()
  {
    CellIsGridSquare(k, c, step);
    assert 2 * c * step == c * step + c * step;
    assert 2 * (k - c) * step == (k - c - 1) * step + (k - c - 1) * step + 2 * step;
  }
}
