/** Failure-carrying wrappers shared by every module: `Option` for values
    that may be absent, `Result` for computations that may raise, and
    `Outcome` for checks that either pass or fail with an error. */
module Wrappers {

  datatype Option<+T> = None | Some(value: T)

  datatype Result<+R, +E> = Success(value: R) | Failure(error: E)

  datatype Outcome<+E> = Pass | Fail(error: E)
}
