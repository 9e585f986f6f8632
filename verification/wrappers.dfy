/** Failure-compatible result types shared by the modules of this model. */
module Wrappers {

  /** A present value or nothing: the model of a lookup that may find nothing. */
  datatype Option<+T> = None | Some(value: T)

  /** A value or an error: the model of an operation that can abort on a failed assertion. */
  datatype Result<+T, +E> = Success(value: T) | Failure(error: E)
}
