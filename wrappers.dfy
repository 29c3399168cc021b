/** Option and Result values used for optional request fields and for the typed
    outcomes (HTTP error responses) of every route. */
module Wrappers {

  datatype Option<+T> = None | Some(value: T)

  datatype Result<+R, +E> = Success(value: R) | Failure(error: E)
}
