/** Optional values and results with a typed error, standing for Java's
    `Optional` and for the exceptions the services throw. */
module Wrappers {

  datatype Option<+T> = None | Some(value: T)

  datatype Result<+R, +E> = Success(value: R) | Failure(error: E)
}
