/** Failure-carrying values shared by every model in this project. */
module Wrappers {

  /** An optional value: Go's nil pointer or JavaScript's null on one side, a value on the other. */
  datatype Option<+T> = None | Some(value: T)

  /** The value of a Go function that returns `(T, error)`. */
  datatype Result<+T, +E> = Success(value: T) | Failure(error: E)
}
