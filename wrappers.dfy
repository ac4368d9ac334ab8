/** Option and Result, the two shapes every fallible operation of the model returns. */
module Wrappers {

  /** Python's `None` or a value. */
  datatype Option<+T> = None | Some(value: T)

  /**
   * The outcome of a computation that may raise. The only exception the modelled
   * code can raise on its inputs is the `ValueError` of `int()` applied to a
   * string that is not an integer literal (an empty digit run, most often).
   */
  datatype Result<+T> = Ok(value: T) | ValueError
}
