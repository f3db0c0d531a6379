/** How an operation of the library ends: with a value, or with one of its exceptions. */
module Results {

  datatype Error =
    | NullValueAccess
    | TypeMisMatch
    | OutOfRange
    | NoConnection
    | SqliteError
    | CallbackError

  datatype Result<+T> = Ok(value: T) | Err(error: Error) {
    predicate IsFailure() {
      Err?
    }

    function PropagateFailure<U>(): Result<U>
      requires Err?
    {
      Err(error)
    }

    function Extract(): T
      requires Ok?
    {
      value
    }
  }

  datatype Option<+T> = None | Some(value: T)

  /** The result of an operation that returns nothing. */
  datatype Outcome = Done | Thrown(error: Error)
}
