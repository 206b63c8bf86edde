/** Results of operations that the original reports by throwing. */
module Wrappers {

  /** The exception classes json.hpp throws, without their messages. */
  datatype Error = OutOfRange | DomainError | InvalidArgument | LengthError | AssertionFailed

  datatype Result<+T> = Ok(value: T) | Err(error: Error) {
    predicate IsFailure() { Err? }

    function PropagateFailure<U>(): Result<U>
      requires Err?
    {
      Err(error)
    }

    function Extract(): T
      requires Ok?
    {
      value
    }
  }

  datatype Option<+T> = None | Some(value: T)
}
