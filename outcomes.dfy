/** Failure-carrying results shared by the contract models. */
module Outcomes {

  datatype Option<+T> = None | Some(value: T)

  /** The outcome of an operation that computes a value or fails with an error. */
  datatype Result<+R, +E> = Success(value: R) | Failure(error: E)

  /** The outcome of a state-changing operation: it passes, or fails with an error. */
  datatype Outcome<+E> = Pass | Fail(error: E)

  /** Whether a state-changing call applied its step: on success the state becomes the step's result
      and the call passes; on failure the state is as before and the call reports the step's error. */
  ghost predicate Applied<S, E>(step: Result<S, E>, before: S, after: S, r: Outcome<E>) {
    match step
    case Success(s) => r == Pass && after == s
    case Failure(e) => r == Fail(e) && after == before
  }
}
