/** Failure-carrying values shared by every layer of the model.
    The service layer of the booking system signals failure with two exception
    classes (resource not found, business rule broken); the database adds a third
    kind, a constraint violation raised when a row is saved. */
module Outcomes {

  datatype Option<+T> = None | Some(value: T)

  /** The three ways an operation of the model can fail. */
  datatype Error =
    | NotFound(message: string)   // ResourceNotFoundException
    | Business(message: string)   // BusinessException
    | Integrity(message: string)  // a database constraint refusing the save

  datatype Result<+T> = Ok(value: T) | Err(error: Error) {
    predicate IsFailure() { Err? }

    function PropagateFailure<U>(): Result<U>
      requires Err?
    {
      Err(error)
    }

    function Extract(): T
      requires Ok?
    {
      value
    }
  }
}
