/** Option and Result: the error-carrying return values of the Go code
    (`(value, err)` pairs and nil pointers) as datatypes. */
module Wrappers {

  datatype Option<+T> = None | Some(value: T)

  datatype Result<+R, +E> = Success(value: R) | Failure(error: E)
}
