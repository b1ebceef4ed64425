/** Option and Result, the value-level stand-ins for JavaScript's
    `null`/`undefined` and for a thrown `Error` carrying a message. */
module Wrappers {

  datatype Option<+T> = None | Some(value: T)

  datatype Result<+R, +E> = Success(value: R) | Failure(error: E)
}
