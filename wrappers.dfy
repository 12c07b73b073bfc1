/** Option and Result: the two failure-carrying shapes the model needs. */
module Wrappers {

  /** A value that may be absent: a JSON field that is missing or null. */
  datatype Option<+T> = None | Some(value: T)

  /** The outcome of a step that can abort the whole run with an error. */
  datatype Result<+R, +E> = Success(value: R) | Failure(error: E)
}
