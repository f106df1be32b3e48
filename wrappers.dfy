/** Optional values and outcomes that carry either a value or an error. */
module Wrappers {

  /** A value that may be absent: JavaScript's `undefined` / `null` results. */
  datatype Option<+T> = None | Some(value: T)

  /** The result of an operation that either returns a value or throws an error. */
  datatype Result<+T, +E> = Ok(value: T) | Err(error: E)
}
