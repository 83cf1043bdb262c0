/** Failure-carrying values shared by the rest of the model. */
module Wrappers {

  /** A value that may be absent: a map lookup that missed, a callee the
      type checker could not resolve. */
  datatype Option<+T> = None | Some(value: T)

  /** The outcome of an operation that can fail with an error of type `E`. */
  datatype Result<+T, +E> = Success(value: T) | Failure(error: E)
}
