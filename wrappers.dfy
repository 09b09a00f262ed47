/** Option and Result, used for C#'s nullable results and thrown exceptions. */
module Wrappers {

  /** `None` stands for C#'s `null`. */
  datatype Option<+T> = None | Some(value: T)

  /** `Failure` stands for an exception thrown by the source. */
  datatype Result<+R, +E> = Success(value: R) | Failure(error: E)
}
