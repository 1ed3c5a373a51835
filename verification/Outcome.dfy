/** Results of operations that may raise, with the exception classes that the modelled code uses. */
module Outcome {
  datatype PyError =
    ZeroDivisionError | OverflowError | ValueError | TypeError | NameError | AttributeError | RuntimeError

  datatype Result<+T> = Ok(value: T) | Raise(error: PyError) {
    predicate IsFailure() {
      Raise?
    }

    function PropagateFailure<U>(): Result<U>
      requires Raise?
    {
      Raise(error)
    }

    function Extract(): T
      requires Ok?
    {
      value
    }
  }

  datatype Option<+T> = None | Some(value: T)
}
