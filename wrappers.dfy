/** Optional values and results with an error kind, shared by every module. */
module Wrappers {
  datatype Option<+T> = None | Some(value: T)

  /** The outcome of an operation that yields a value or raises an error of kind `E`. */
  datatype Result<+T, +E> = Success(value: T) | Failure(error: E)
  {
    predicate IsFailure() { Failure? }

    function PropagateFailure<U>(): Result<U, E>
      requires Failure?
    {
      Failure(error)
    }

    function Extract(): T
      requires Success?
    {
      value
    }
  }

  /** The outcome of an operation that yields nothing or raises an error of kind `E`. */
  datatype Outcome<+E> = Pass | Fail(error: E)
}
