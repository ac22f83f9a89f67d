/** Failure-carrying values shared by the whole model. */
module Wrappers {

  /** A value that may be absent. */
  datatype Option<+T> = None | Some(value: T)

  /** The outcome of a step that may stop the script. */
  datatype Result<+R, +E> = Success(value: R) | Failure(error: E)
}
