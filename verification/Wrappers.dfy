/** The two result shapes shared by every part of the model. */
module Wrappers {

  /** A nullable column, or a lookup that may find nothing. */
  datatype Option<+T> = None | Some(value: T)

  /** A computation that may raise; `error` is the exception's message. */
  datatype Result<+T> = Success(value: T) | Failure(error: string)
}
