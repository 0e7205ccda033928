/** Optional values and results with an error, as the connectors' JSON reads return them. */
module Wrappers {

  /** A JSON value that may be `null`. */
  datatype Option<+T> = None | Some(value: T)

  /** Why reading a response failed. */
  datatype Error =
    /** A timestamp that is neither null nor empty but is not an RFC 3339 date-time. */
    | MalformedTimestamp(text: string)

  datatype Result<+T> = Ok(value: T) | Err(error: Error) {
    predicate IsFailure() { Err? }

    function PropagateFailure<U>(): Result<U>
      requires Err?
    {
      Err(error)
    }

    function Extract(): T
      requires Ok?
    {
      value
    }
  }
}
