/** Failure-compatible wrappers used throughout the model: `Option` stands for
    a pandas value that may be NaN/NaT, `Result` for a computation that may
    raise in the dashboard callbacks. */
module Wrappers {

  /** A value that may be missing (NaN in a float column, NaT in a time column). */
  datatype Option<+T> = None | Some(value: T)

  /** The outcome of a callback: a value, or the exception it raises. */
  datatype Result<+T, +E> = Ok(value: T) | Err(error: E) {

    predicate IsFailure() {
      Err?
    }

    function PropagateFailure<U>(): Result<U, E>
      requires Err?
    {
      Err(error)
    }

    function Extract(): T
      requires Ok?
    {
      value
    }
  }
}
