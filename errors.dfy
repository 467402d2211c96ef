/**
 * The exceptions the library throws, as values: a failing operation returns
 * `Failure(e)` instead of throwing.
 */
module Errors {

  /** ArgumentNullException, ArgumentException, FormatException, DivideByZeroException. */
  datatype Error = ArgumentNull | Argument | Format | DivideByZero

  datatype Result<T> = Success(value: T) | Failure(error: Error)
  {
    predicate IsFailure() { Failure? }

    function PropagateFailure<U>(): Result<U>
      requires Failure?
    {
      Failure(error)
    }

    function Extract(): T
      requires Success?
    {
      value
    }
  }

  datatype Option<T> = None | Some(value: T)
}
