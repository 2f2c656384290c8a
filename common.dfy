/** Failure-compatible wrappers shared by every module of the model. */
module Common {

  /** A value that may be absent (Python's `None`). */
  datatype Option<+T> = None | Some(value: T)

  /** Either a value or the error the source raises instead of returning one. */
  datatype Result<+T, +E> = Success(value: T) | Failure(error: E)

  /**
   * What a step whose work happens outside the model reports: it returned
   * success, it returned failure (False), or it raised an exception.
   */
  datatype Outcome = Done | Declined | Raised
}
