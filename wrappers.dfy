/** Optional values and results with an error side, shared by the other modules. */
module Wrappers {

  /** A value that may be absent: SQL NULL for a column, `None` for a lookup. */
  datatype Option<+T> = None | Some(value: T)

  /** The outcome of an operation that can fail with an error of type E. */
  datatype Result<+R, +E> = Ok(value: R) | Err(error: E)
}
