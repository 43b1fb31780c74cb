/** Option and Result, the shapes the model uses for `null` returns and thrown errors. */
module Wrappers {

  /** `None` stands for JavaScript's `null` result. */
  datatype Option<+T> = None | Some(value: T)

  /** `Failure` stands for an exception thrown to the caller. */
  datatype Result<+R, +E> = Success(value: R) | Failure(error: E)
}
