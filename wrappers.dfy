/** Optional values and error returns shared by the whole model. */
module Wrappers {

  /** A value that may be missing: a JSON `null`, an absent key or a padding slot. */
  datatype Option<+T> = None | Some(value: T)

  /** The outcome of an operation that raises instead of returning in the source. */
  datatype Result<+T, +E> = Ok(value: T) | Err(error: E)
}
