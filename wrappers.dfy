/** Rust's `Option` and `Result`, as the model's operations return them. */
module Wrappers {

  datatype Option<+T> = None | Some(value: T)

  /** `Result` supports `:-`, which plays the part of Rust's `?` operator. */
  datatype Result<+T, +E> = Ok(value: T) | Err(error: E)
  {
    predicate IsFailure()
    {
      Err?
    }

    function PropagateFailure<U>(): Result<U, E>
      requires Err?
    {
      Err(error)
    }

    function Extract(): T
      requires Ok?
    {
      value
    }
  }
}
