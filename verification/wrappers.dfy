/** Failure-carrying result types shared by the service and the routes. */
module Wrappers {

  /** Python's `Optional[T]`: `None` or a present value. */
  datatype Option<+T> = None | Some(value: T)

  /** The outcome of a block that may raise: a returned value or a raised exception. */
  datatype Result<+R, +E> = Success(value: R) | Failure(error: E)
}
