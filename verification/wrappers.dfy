/** Small failure-carrying datatypes shared by the model. */
module Wrappers {

  /** A value that may be absent: the model's stand-in for a nullable `Portion*`. */
  datatype Option<+T> = None | Some(value: T)

  /** The outcome of an operation that either produces a value or reports an error. */
  datatype Result<+R, +E> = Success(value: R) | Failure(error: E)
}
