/** Failure-compatible result types shared by the whole model. A pointer that may be
    null in the source becomes an `Option`; an operation that may abandon its work
    (follow a null pointer, loop forever) returns a `Result`. */
module Wrappers {

  datatype Option<T> = None | Some(value: T)

  datatype Result<T, E> = Ok(value: T) | Err(error: E) {

    predicate IsFailure() {
      Err?
    }

    function PropagateFailure<U>(): Result<U, E>
      requires Err?
    {
      Err(error)
    }

    function Extract(): T
      requires Ok?
    {
      value
    }
  }
}
