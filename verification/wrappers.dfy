/** Failure-compatible result types. Each exception the codec can throw is an
    `Error` variant; a thrown exception is an `Err`, a normal return an `Ok`. */
module Wrappers {

  /** The exception classes the codec and the buffer writers throw. */
  datatype Error =
    | Format               // FormatException: malformed input
    | NotSupported         // NotSupportedException: outside the supported targets/kinds
    | InvalidOperation     // InvalidOperationException: inconsistent in-memory object
    | Argument             // ArgumentException
    | ArgumentOutOfRange   // ArgumentOutOfRangeException, also a read past the end of a span
    | NullReference        // NullReferenceException from a null array field
    | Aggregate            // AggregateException (ChainedArrayBufferWriter.CopyTo)

  datatype Option<+T> = None | Some(value: T)

  datatype Result<+R> = Ok(value: R) | Err(error: Error) {
    predicate IsFailure() {
      Err?
    }

    function PropagateFailure<U>(): Result<U>
      requires Err?
    {
      Err(error)
    }

    function Extract(): R
      requires Ok?
    {
      value
    }
  }

  /** The outcome of a call that returns nothing but may throw. */
  datatype Outcome = Pass | Fail(error: Error) {
    predicate IsFailure() {
      Fail?
    }

    function PropagateFailure(): Outcome
      requires Fail?
    {
      this
    }
  }
}
