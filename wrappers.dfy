/** Failure-carrying results, for `fs` calls that throw. */
module Wrappers {

  datatype Result<+T, +E> = Ok(value: T) | Err(error: E)

}
