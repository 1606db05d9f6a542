/** Option and Result values, used for the script's `null` returns and its uncaught errors. */
module Wrappers {

  /** `None` stands for JavaScript's `null`. */
  datatype Option<+T> = None | Some(value: T)

  /** `Failure` stands for an error that the script does not catch. */
  datatype Result<+R, +E> = Success(value: R) | Failure(error: E)
}
