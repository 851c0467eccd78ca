/** Failure-carrying datatypes shared by the model: an optional value, a
    pass/fail verdict with an error payload, and a value-or-error result. */
module Wrappers {

  /** A value that may be absent (the worker's single-slot result queue). */
  datatype Option<+T> = None | Some(value: T)

  /** A check that either passes or fails with an error (a Python function
      that returns nothing or raises). */
  datatype Outcome<+E> = Pass | Fail(error: E)

  /** A computation that either yields a value or fails with an error. */
  datatype Result<+R, +E> = Success(value: R) | Failure(error: E)
}
