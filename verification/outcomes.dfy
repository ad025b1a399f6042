/** The ways a run of the triangle drawer can stop with a Python exception, and the
    Result type every fallible operation of the model returns. */
module Outcomes {

  /** Exceptions the program can raise on its own inputs. */
  datatype Error =
    | DivisionByZero          // size_canvas / nbr_rows with nbr_rows == 0
    | ZeroRangeStep           // range(0, size_canvas, 0) inside create_grid
    | RowIndexOutOfRange      // binary_row[col] or current_row[col] past the end
    | PaletteIndexOutOfRange  // colors[i] with i >= 1000

  /** Either a value or the exception that ended the computation. */
  datatype Result<+T> = Ok(value: T) | Err(error: Error)
}
