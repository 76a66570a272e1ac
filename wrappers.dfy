/** Optional values and results with an error, used for Java's Optional and for
    the exceptions the parser throws. */
module Wrappers {

  datatype Option<+T> = None | Some(value: T)

  datatype Result<+R, +E> = Success(value: R) | Failure(error: E)
}
