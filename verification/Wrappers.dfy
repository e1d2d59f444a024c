/** Failure-compatible result types shared by every loader of the model. */
module Wrappers {

  datatype Option<+T> = None | Some(value: T)

  /** Why a load did not produce a value.
      - Exit(status): the source prints a diagnostic and terminates the process with `status`.
      - ShortRead: the input ends inside an element that `fread` reads as a whole, which
        leaves that element indeterminate; the model does not define what follows.
      - Malformed: the input drives the source into undefined behaviour (a buffer overrun). */
  datatype LoadError = Exit(status: int) | ShortRead | Malformed

  datatype Result<+T> = Ok(value: T) | Err(error: LoadError) {
    predicate IsFailure() { Err? }
    function PropagateFailure<U>(): Result<U>
      requires Err?
    {
      Err(error)
    }
    function Extract(): T
      requires Ok?
    {
      value
    }
  }
}
