/** Failure-carrying result types used across the model: Python's `None`
    becomes `Option.None`, and a raised exception becomes `Result.Failure`. */
module Wrappers {

  datatype Option<+T> = None | Some(value: T)

  datatype Result<+R, +E> = Success(value: R) | Failure(error: E)
}
