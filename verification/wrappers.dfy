/** Failure-compatible wrappers used by every decoder of the model. */
module Wrappers {

  /** An optional value: the DSi extension of an icon is either present or absent. */
  datatype Option<+T> = None | Some(value: T)

  /** The outcome of a decode step: a value, or the error that stopped it. */
  datatype Result<+T, +E> = Ok(value: T) | Err(error: E) {

    predicate IsFailure() {
      Err?
    }

    function PropagateFailure<U>(): Result<U, E>
      requires Err?
    {
      Err(error)
    }

    function Extract(): T
      requires Ok?
    {
      value
    }
  }
}
