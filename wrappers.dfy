/** Option and Result, used for the values PHP represents by `null`/`false`
    and for the exception `decode` may throw. */
module Wrappers {

  datatype Option<+T> = None | Some(value: T)

  datatype Result<+R, +E> = Success(value: R) | Failure(error: E)
}
