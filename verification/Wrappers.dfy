/** The two failure-compatible datatypes that the other modules share. */
module Wrappers {

  datatype Option<+T> = None | Some(value: T)

  /** An operation that the program may end with an error. */
  datatype Result<+T> = Ok(value: T) | Err(error: string) {
    predicate IsFailure() {
      Err?
    }

    function PropagateFailure<U>(): Result<U>
      requires Err?
    {
      Err(error)
    }

    function Extract(): T
      requires Ok?
    {
      value
    }
  }
}
