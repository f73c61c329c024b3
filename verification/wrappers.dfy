/** The optional-value and outcome datatypes shared by the other modules. */
module Wrappers {

  /** An optional value: an empty ring slot is `None`. */
  datatype Option<+T> = None | Some(value: T)

  /** The outcome of an operation that can fail with an error message. */
  datatype Result<+R, +E> = Success(value: R) | Failure(error: E)
}
