/** Failure-compatible wrappers used throughout the model: a present/absent
    value (a YAML key that may be missing or null) and a result that is either
    a value or the error the program would raise. */
module Wrappers {

  /** `None` stands for a key that is absent or whose value is null. */
  datatype Option<+T> = None | Some(value: T)

  datatype Result<+R, +E> = Success(value: R) | Failure(error: E) {

    predicate IsFailure() {
      Failure?
    }

    function PropagateFailure<U>(): Result<U, E>
      requires Failure?
    {
      Failure(error)
    }

    function Extract(): R
      requires Success?
    {
      value
    }
  }
}
