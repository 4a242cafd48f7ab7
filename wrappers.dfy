/** Failure-carrying results. The program aborts on its first error and
    prints nothing, so every operation that can abort returns one of these. */
module Wrappers {

  datatype Option<+T> = None | Some(value: T)

  datatype Result<+T, +E> = Ok(value: T) | Err(error: E)
}
