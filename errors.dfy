/** Error values and results of the queue's operations. Each error stands for
    one of the error messages the queue returns. */
module Errors {

  datatype Error =
    | NegativeSize     // "cannot create a priority queue of negative size"
    | IllegalArgument  // "illegal argument": index outside [0, max)
    | AlreadyInQueue   // "specified index is already in the queue"
    | NotInQueue       // "specified index is not in the queue"
    | EmptyQueue       // "priority queue is empty"
    | NotDecrease      // "calling with this argument would not decrease the key"
    | NotIncrease      // "calling with this argument would not increase the key"

  /** The result of an operation that returns a value or an error. */
  datatype Result<T> = Ok(value: T) | Err(error: Error)

  /** The result of an operation that returns only an error (nil on success). */
  datatype Outcome = Pass | Fail(error: Error)
}
