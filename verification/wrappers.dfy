/** Failure-carrying result types shared by every module of the model.
    A Rust `panic!`/`unwrap` failure or a Python exception that ends the
    program is modelled as an `Err` value rather than as a precondition. */
module Wrappers {

  datatype Option<+T> = None | Some(value: T)

  datatype Result<+T, +E> = Ok(value: T) | Err(error: E) {
    predicate IsFailure() {
      Err?
    }

    function PropagateFailure<U>(): Result<U, E>
      requires Err?
    {
      Err(error)
    }

    function Extract(): T
      requires Ok?
    {
      value
    }
  }
}
