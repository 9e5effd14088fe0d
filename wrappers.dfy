/** Optional values and error returns shared by the other modules. */
module Wrappers {

  /** A value that may be absent, such as an option given on the command line or not. */
  datatype Option<T> = None | Some(value: T)

  /** Either a successful value or the error that stopped the computation. */
  datatype Result<T, E> = Ok(value: T) | Err(error: E)
}
