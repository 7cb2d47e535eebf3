/** Failure-carrying result types shared by every module of the model.
    `Failure` stands for a C++ exception raised by `enforce` or `throw`, or,
    when the failing `enforce` is inside a `noexcept` function, for the
    termination of the process. */
module Wrappers {

  datatype Option<+T> = None | Some(value: T)

  datatype Result<+T> = Success(value: T) | Failure(error: string) {
    predicate IsFailure() { Failure? }

    function PropagateFailure<U>(): Result<U>
      requires Failure?
    {
      Failure(error)
    }

    function Extract(): T
      requires Success?
    {
      value
    }
  }
}
