/** Optional values and error-carrying results shared by the station network and the route search. */
module Wrappers {

  /** A value that may be absent: Python's `Optional`, with `None` for a missing link. */
  datatype Option<+T> = None | Some(value: T)

  /** The outcome of an operation that either succeeds or raises. */
  datatype Result<+T, +E> = Ok(value: T) | Err(error: E)
}
