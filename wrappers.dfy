/** Failure-compatible result types standing for Rust's `Option<T>`, `Result<T, E>`
    and `Result<(), E>`.
    `Result` supports `:-`, which plays the part of Rust's `?` operator. */
module Wrappers {

  datatype Option<+T> = None | Some(value: T)

  datatype Result<+T, +E> = Ok(value: T) | Err(error: E) {

    predicate IsFailure() {
      Err?
    }

    function PropagateFailure<U>(): Result<U, E>
      requires Err?
    {
      Err(error)
    }

    function Extract(): T
      requires Ok?
    {
      value
    }
  }

  /** `Result<(), E>`: success carries no value. */
  datatype Outcome<+E> = Pass | Fail(error: E)
}
