/**
 The outcome of an operation that may throw.
 */
module Wrappers {

  /** The standard exception that is thrown, or a violated `assert`. */
  datatype Error = OutOfRange | InvalidArgument | DomainError | LengthError | AssertionFailure

  datatype Result<+T> = Ok(value: T) | Err(error: Error) {
    predicate IsFailure() {
      Err?
    }

    function PropagateFailure<U>(): Result<U>
      requires Err?
    {
      Err(error)
    }

    function Extract(): T
      requires Ok?
    {
      value
    }
  }

  datatype Option<+T> = None | Some(value: T)
}
