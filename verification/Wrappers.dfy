// The outcome types shared by the modelled libraries.
module Wrappers {
  datatype Option<+T> = None | Some(value: T)

  // A C++ call that either returns or throws; `:-` lets the exception pass through.
  datatype Result<+T, +E> = Ok(value: T) | Err(error: E)
  {
    predicate IsFailure() { Err? }

    function PropagateFailure<U>(): Result<U, E>
      requires Err?
    {
      Err(error)
    }

    function Extract(): T
      requires Ok?
    {
      value
    }
  }
}
