/** Failure-compatible wrappers: `Option` stands for a Java reference that may be null,
    `Result` for a call that returns a value or throws, `Outcome` for a void call that may throw. */
module Wrappers {

  datatype Option<+T> = None | Some(value: T)

  datatype Result<+R, +E> = Success(value: R) | Failure(error: E)

  datatype Outcome<+E> = Pass | Fail(error: E)
}
