/** Optional values and outcomes that are either a value or a reason. */
module Wrappers {

  /** A value that may be absent, as a Java reference that may be null. */
  datatype Option<+T> = None | Some(value: T)

  /** Either a value or the reason there is none. */
  datatype Result<+T, +E> = Ok(value: T) | Err(error: E)
}
