/** Failure-carrying return types shared by the other modules. */
module Outcomes {

  /** A value that may be absent, used where floating-point division yields no finite number. */
  datatype Option<+T> = None | Some(value: T)

  /**
   * The outcome of a step that can raise: either its value or the error it
   * raised. The three members below let `:-` pass a failure on unchanged.
   */
  datatype Result<+T, +E> = Success(value: T) | Failure(error: E) {
    predicate IsFailure() {
      Failure?
    }

    function PropagateFailure<U>(): Result<U, E>
      requires Failure?
    {
      Failure(error)
    }

    function Extract(): T
      requires Success?
    {
      value
    }
  }
}
