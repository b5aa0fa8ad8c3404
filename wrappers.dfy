/** Option and Result: the error returns of the Go source become values. */
module Wrappers {

  datatype Option<+T> = None | Some(value: T)

  /** `Err` carries the text of the Go `error` the source would return. */
  datatype Result<+T, +E> = Ok(value: T) | Err(error: E)
}
