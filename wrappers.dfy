/** Optional values and results, used wherever the source returns `undefined` or throws. */
module Wrappers {

  /** A value that may be absent (`undefined` in the source). */
  datatype Option<+T> = None | Some(value: T)

  /** The outcome of a call into the version-control tool: a value, or a thrown error. */
  datatype Result<+T, +E> = Ok(value: T) | Err(error: E)
}
