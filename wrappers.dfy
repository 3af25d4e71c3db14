/** Option and Result, used for the values the handlers receive from their collaborators:
    a decoded request or its error text, a context entry or its absence, a store result or
    its error text. */
module Wrappers {

  datatype Option<+T> = None | Some(value: T)

  /** A Go `(value, error)` pair where the error, when present, is kept as its `Error()` text. */
  datatype Result<+T> = Success(value: T) | Failure(error: string)
}
