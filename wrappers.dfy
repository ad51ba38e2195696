/** Option, Result and Outcome wrappers shared by the modules of this model. */
module Wrappers {

  /** An optional value; None stands for Go's nil. */
  datatype Option<+T> = None | Some(value: T)

  /** A value or an error; Failure stands for a Go panic or error return. */
  datatype Result<+T, +E> = Success(value: T) | Failure(error: E)

  /** The outcome of an operation that returns nothing on success. */
  datatype Outcome<+E> = Pass | Fail(error: E)
}
