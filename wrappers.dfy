/** Option and Result: the "found / not found" and "value / error" outcomes that the
    Java services express with Optional and thrown exceptions. */
module Wrappers {

  datatype Option<+T> = None | Some(value: T)

  datatype Result<+R, +E> = Success(value: R) | Failure(error: E)
}
