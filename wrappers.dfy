/** Option, Result and Outcome: the Python model's `None`, raised exceptions and
    "returned normally" outcomes. */
module Wrappers {

  datatype Option<+T> = None | Some(value: T)

  /** A computation that either produced a value or raised an error. */
  datatype Result<+T, +E> = Success(value: T) | Failure(error: E)

  /** A state change that either completed or raised an error. */
  datatype Outcome<+E> = Pass | Fail(error: E)
}
