/** Optional values and results, used wherever the source falls back to `None` or raises. */
module Wrappers {

  /** A value that may be absent (Python's `None`, pandas' missing value). */
  datatype Option<+T> = None | Some(value: T)

  /** The outcome of an operation that can fail. */
  datatype Result<+R, +E> = Ok(value: R) | Err(error: E)
}
