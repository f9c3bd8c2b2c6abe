/** Success and failure values standing for the exceptions the containers throw. */
module Outcomes {

  /** A value, or the error the source would throw instead of returning it. */
  datatype Result<+T, +E> = Ok(value: T) | Err(error: E)

  /** A check that either passes or throws `error`. */
  datatype Outcome<+E> = Pass | Fail(error: E)
}
