/** Failure-carrying return values shared by every service in the model.
    An exception thrown by a service method becomes `Err(e)`; because the
    state is immutable, an `Err` result means the persisted state is unchanged,
    which is exactly the rollback behaviour of the original transactions. */
module Outcome {

  datatype Option<+T> = None | Some(value: T)

  datatype Result<+T, +E> = Ok(value: T) | Err(error: E) {
    predicate IsFailure() {
      Err?
    }

    function PropagateFailure<U>(): Result<U, E>
      requires Err?
    {
      Err(error)
    }

    function Extract(): T
      requires Ok?
    {
      value
    }
  }
}
