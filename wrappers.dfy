/** Option and Result, the two shapes the model needs for JavaScript's
    nullish values and for operations that can fail. */
module Wrappers {

  /** A value that may be `null`/`undefined` in the script. */
  datatype Option<+T> = None | Some(value: T)

  /** The outcome of an operation that either yields a value or rejects. */
  datatype Result<+T, +E> = Ok(value: T) | Err(error: E)
}
