/** Results of operations that either complete or raise an error. */
module Wrappers {

  /** An operation that returns a value or raises an error. */
  datatype Result<T, E> = Success(value: T) | Failure(error: E)

  /** An operation that returns nothing or raises an error. */
  datatype Outcome<E> = Pass | Fail(error: E)
}
