/** Failure-carrying results shared by every module of the save codec.

    The Python code reports failures by raising; each raise site becomes a
    `Failure`/`Fail` carrying one of the error kinds below. */
module Wrappers {

  /** The kinds of failure the codec raises. */
  datatype Error =
    | Truncated              // the buffer ends before a field is fully readable
    | UnknownTypeCode(code: int) // a decrypted type tag outside the type table
    | Unsupported            // a type with no fixed size, or no scalar value
    | SizeMismatch           // a same-size replace or a fixed-size parse got another length
    | OutOfRange             // an integer that the packed field width cannot hold
    | WrongArgument          // an argument of the wrong kind (Python's TypeError)
    | KeyNotFound            // an index lookup missed
    | InvalidChange          // a type change other than between the two plain booleans
    | NotANumber             // a string that does not parse as a decimal integer

  datatype Result<T> = Success(value: T) | Failure(error: Error) {
    predicate IsFailure() { Failure? }
    function PropagateFailure<U>(): Result<U>
      requires Failure?
    {
      Failure(error)
    }
    function Extract(): T
      requires Success?
    {
      value
    }
  }

  /** The outcome of an operation that only changes state. */
  datatype Outcome = Pass | Fail(error: Error) {
    predicate IsFailure() { Fail? }
    function PropagateFailure<U>(): Result<U>
      requires Fail?
    {
      Failure(error)
    }
  }

  /** Python's `None`-or-value returns. */
  datatype Option<T> = None | Some(value: T)
}
