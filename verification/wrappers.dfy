/** Optional positions, and the outcome of `Sdiff.Run`. */
module Wrappers {

  /** The outcome of a pattern match: the captured stack position, or nothing. */
  datatype Option<+T> = None | Some(value: T)

  /** The outcome of a whole run: a value, or the error that aborts the run. */
  datatype Result<+R, +E> = Success(value: R) | Failure(error: E)
}
