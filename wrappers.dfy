/** Option and Result values used where the JavaScript source returns
    `null`/`undefined` or throws one of its typed errors. */
module Wrappers {

  datatype Option<+T> = None | Some(value: T)

  datatype Result<+R, +E> = Success(value: R) | Failure(error: E)
}
