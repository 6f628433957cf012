/** Failure-carrying result types shared by every module of the model. */
module Wrappers {

  /** An optional value: the model's stand-in for a null pointer or an empty `std::optional`. */
  datatype Option<+T> = None | Some(value: T)

  /** A value or an error: the model's stand-in for a raised exception. */
  datatype Result<+R, +E> = Success(value: R) | Failure(error: E)
}
