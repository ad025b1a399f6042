/** Canvas geometry of the triangle drawer: the constructor's step computation and the
    square each cell (row index k, column c) occupies. */
module Geometry {
  import opened Outcomes
  import opened Arith

  /** Canvas size PascalTriangle uses when none is given. */
  const DefaultCanvasSize: int := 1500
  /** Canvas size PascalTriangleMod2 uses when none is given. */
  const ModuloCanvasSize: int := 1600

  function Abs(x: int): (r: nat)
  {
    if x < 0 then -x else x
  }

  /** Python's int(a / b) for integers: the exact quotient truncated toward zero. */
  function TruncDiv(a: int, b: int): (r: int)
    requires b != 0
    ensures Abs(r) == Abs(a) / Abs(b)
    ensures r > 0 ==> (a > 0) == (b > 0)
    ensures r < 0 ==> (a > 0) != (b > 0)
    ensures a >= 0 && b > 0 ==> r * b <= a < (r + 1) * b
  {
    FloorDivBounds(Abs(a), Abs(b));
    var q := Abs(a) / Abs(b);
    if (a < 0) == (b < 0) then q else -q
  }

  lemma FloorDivBounds(a: nat, b: nat)
    requires b > 0
    ensures a / b >= 0
    ensures (a / b) * b <= a < (a / b + 1) * b
  {
    var q, m := a / b, a % b;
    assert a == q * b + m;
    assert (q + 1) * b == q * b + b;
  }

  /** A quotient of naturals is 0 exactly when the dividend is below the divisor. */
  lemma QuotientIsZero(a: nat, b: nat)
    requires b > 0
    ensures a / b == 0 <==> a < b
  {
    FloorDivBounds(a, b);
    if a / b != 0 {
      MulMonotonic(1, a / b, b);
    }
  }

  /** The fields __init__ computes that the drawing reads. */
  datatype Config = Config(nbrRows: int, sizeCanvas: int, step: int)

  /** PascalTriangle.__init__ as far as the model is concerned: step is
      int(size_canvas / nbr_rows), which raises on nbr_rows == 0, and create_grid then
      calls range(0, size_canvas, step), which raises on a zero step. */
  function Init(nbrRows: int, sizeCanvas: int): (r: Result<Config>)
    ensures r == Err(DivisionByZero) <==> nbrRows == 0
    ensures r.Ok? ==> r.value.nbrRows == nbrRows && r.value.sizeCanvas == sizeCanvas
    ensures r.Ok? ==> r.value.step != 0 && r.value.step == TruncDiv(sizeCanvas, nbrRows)
    ensures nbrRows != 0 ==> (r == Err(ZeroRangeStep) <==> Abs(sizeCanvas) < Abs(nbrRows))
    ensures nbrRows != 0 && Abs(nbrRows) <= Abs(sizeCanvas) ==> r.Ok?
    ensures 0 < sizeCanvas < nbrRows ==> r == Err(ZeroRangeStep)
    ensures 0 < nbrRows <= sizeCanvas ==>
      r.Ok? && r.value.step >= 1 &&
      r.value.step * nbrRows <= sizeCanvas < (r.value.step + 1) * nbrRows
  {
    if nbrRows == 0 then Err(DivisionByZero)
    else
      QuotientIsZero(Abs(sizeCanvas), Abs(nbrRows));
      var step := TruncDiv(sizeCanvas, nbrRows);
      if step == 0 then Err(ZeroRangeStep)
      else Ok(Config(nbrRows, sizeCanvas, step))
  }

  /** The entry point's configuration, 800 rows on a 1600-pixel canvas, gives
      two-pixel cells; the plain triangle's default canvas gives one-pixel cells. */
  lemma EntryPointStep()
    ensures Init(800, ModuloCanvasSize) == Ok(Config(800, 1600, 2))
    ensures Init(800, DefaultCanvasSize) == Ok(Config(800, 1500, 1))
  {
  }

  /** The two corners handed to create_rectangle, in the order they are passed. */
  datatype Rect = Rect(x0: int, y0: int, x1: int, y1: int)
  {
    function Left(): (r: int) { if x0 <= x1 then x0 else x1 }
    function Right(): (r: int) { if x0 <= x1 then x1 else x0 }
    function Top(): (r: int) { if y0 <= y1 then y0 else y1 }
    function Bottom(): (r: int) { if y0 <= y1 then y1 else y0 }

    /** Pixel (px, py) lies in the rectangle, right and bottom edges excluded. */
    predicate Covers(px: int, py: int)
    {
      Left() <= px < Right() && Top() <= py < Bottom()
    }
  }

  /** The rectangle PascalTriangleMod2.fill_row draws for column c of the row with
      current_index k: corners ((c+1)*step, (k-c-1)*step) and (c*step, (k-c)*step). */
  function CellRect(k: int, c: int, step: int): (r: Rect)
  {
    Rect((c + 1) * step, (k - c - 1) * step, c * step, (k - c) * step)
  }

  /** Cell (k, c) is the grid square in column c and grid row k-c-1 from the top, one
      step wide and one step high. */
  lemma {:induction false} CellIsGridSquare(k: int, c: int, step: int)
    requires step > 0
    ensures CellRect(k, c, step).Left() == c * step
    ensures CellRect(k, c, step).Top() == (k - c - 1) * step
    ensures CellRect(k, c, step).Right() == CellRect(k, c, step).Left() + step
    ensures CellRect(k, c, step).Bottom() == CellRect(k, c, step).Top() + step
  {
    assert (c + 1) * step == c * step + step;
    assert (k - c) * step == (k - c - 1) * step + step;
  }

  /** A point inside [g*step, (g+1)*step) determines g. */
  lemma SameGridLine(g: int, h: int, step: int, p: int)
    requires step > 0
    requires g * step <= p < g * step + step
    requires h * step <= p < h * step + step
    ensures g == h
  {
    assert (g + 1) * step == g * step + step;
    assert (h + 1) * step == h * step + step;
    if g < h {
      MulMonotonic(g + 1, h, step);
    } else if h < g {
      MulMonotonic(h + 1, g, step);
    }
  }

  /** Different cells never paint the same pixel. */
  lemma CellsDisjoint(k: int, c: int, k': int, c': int, step: int, px: int, py: int)
    requires step > 0
    requires (k, c) != (k', c')
    ensures !(CellRect(k, c, step).Covers(px, py) && CellRect(k', c', step).Covers(px, py))
  {
    if CellRect(k, c, step).Covers(px, py) && CellRect(k', c', step).Covers(px, py) {
      CellIsGridSquare(k, c, step);
      CellIsGridSquare(k', c', step);
      SameGridLine(c, c', step, px);
      SameGridLine(k - c - 1, k' - c' - 1, step, py);
    }
  }

  /** Every cell of a drawn row, 0 <= c < k <= nbr_rows, lies on the canvas. */
  lemma CellOnCanvas(cfg: Config, k: int, c: int)
    requires Init(cfg.nbrRows, cfg.sizeCanvas) == Ok(cfg) && cfg.sizeCanvas > 0
    requires 0 <= c < k <= cfg.nbrRows
    ensures 0 <= CellRect(k, c, cfg.step).Left() && CellRect(k, c, cfg.step).Right() <= cfg.sizeCanvas
    ensures 0 <= CellRect(k, c, cfg.step).Top() && CellRect(k, c, cfg.step).Bottom() <= cfg.sizeCanvas
  {
    var step := cfg.step;
    assert step > 0;
    CellIsGridSquare(k, c, step);
    MulMonotonic(0, c, step);
    MulMonotonic(0, k - c - 1, step);
    MulMonotonic(c + 1, cfg.nbrRows, step);
    MulMonotonic(k - c, cfg.nbrRows, step);
    assert c * step + step == (c + 1) * step;
    assert (k - c - 1) * step + step == (k - c) * step;
  }

  /** The inverse of the cell layout: the grid square in column gx and grid row gy,
      with gx + gy < nbr_rows, is drawn by exactly the cell (gx + gy + 1, gx), which
      belongs to a drawn row. */
  lemma GridSquareCell(n: int, gx: int, gy: int, step: int, k: int, c: int)
    requires step > 0 && 0 <= gx && 0 <= gy && gx + gy < n
    ensures 0 <= gx < gx + gy + 1 <= n
    ensures CellRect(gx + gy + 1, gx, step).Left() == gx * step
    ensures CellRect(gx + gy + 1, gx, step).Top() == gy * step
    ensures CellRect(k, c, step).Left() == gx * step && CellRect(k, c, step).Top() == gy * step
      ==> k == gx + gy + 1 && c == gx
  {
    CellIsGridSquare(gx + gy + 1, gx, step);
    CellIsGridSquare(k, c, step);
    if CellRect(k, c, step).Left() == gx * step && CellRect(k, c, step).Top() == gy * step {
      SameGridLine(c, gx, step, gx * step);
      SameGridLine(k - c - 1, gy, step, gy * step);
    }
  }
}
