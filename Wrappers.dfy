/** `Option` for lookups that can miss, and the driver's error channel:
    every fallible operation returns a `Result`, and `:-` propagates the first
    error unchanged, as `?` does in the driver. */
module Wrappers {

  datatype Option<+T> = None | Some(value: T)

  datatype Result<+T, +E> = Ok(value: T) | Err(error: E) {

    predicate IsFailure() {
      Err?
    }

    function PropagateFailure<U>(): Result<U, E>
      requires Err?
    {
      Err(error)
    }

    function Extract(): T
      requires Ok?
    {
      value
    }

    /** The outcome alone, with the value dropped. */
    function Outcome(): (r: Result<(), E>)
      ensures r.Ok? <==> Ok?
      ensures Err? ==> r.error == error
    {
      match this
      case Ok(_) => Ok(())
      case Err(e) => Err(e)
    }
  }
}
