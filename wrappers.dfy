/** Option and a pass/fail outcome, the two failure shapes the model uses. */
module Wrappers {

  datatype Option<+T> = None | Some(value: T)

  /** A check that either passes or fails with an error value. */
  datatype Outcome<+E> = Pass | Fail(error: E)

  /** A computation that either yields a value or fails with an error value. */
  datatype Result<+T, +E> = Ok(value: T) | Err(error: E)
}
