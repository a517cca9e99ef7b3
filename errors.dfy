/** Errors and the outcome of every parsing step.
    The parser reports an error as its kind and the byte index at which it was
    detected; the message text is not modelled. Besides returning an error the
    original code can also abort (a `todo!()` or an out-of-bounds read), which
    the model records as a distinct `Panicked` outcome. */
module Errors {

  datatype Option<+T> = None | Some(value: T)

  /** The three kinds of failure the parser reports. */
  datatype ErrorKind = UnexpectedChar | EmptyIdent | WrongValue

  /** An error: its kind and the parser's index when it was raised. */
  datatype Error = Error(kind: ErrorKind, index: nat)

  /** The two ways the parser aborts instead of returning an error. */
  datatype Panic =
    | Unimplemented(index: nat)     // `todo!()` for list and map tags
    | IndexOutOfBounds(index: nat)  // reading `input[index]` with index == len

  /** `Result<T>` of the original, extended with the aborting outcome.
      Failure-compatible, so `:-` propagates errors like Rust's `?`. */
  datatype Outcome<+T> = Ok(value: T) | Err(error: Error) | Panicked(panic: Panic) {

    predicate IsFailure() {
      !Ok?
    }

    function PropagateFailure<U>(): (r: Outcome<U>)
      requires !Ok?
      ensures Err? ==> r == Err(error)
      ensures Panicked? ==> r == Panicked(panic)
    {
      if Err? then Err(error) else Panicked(panic)
    }

    function Extract(): T
      requires Ok?
    {
      value
    }
  }
}
