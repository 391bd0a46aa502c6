/** Optional values and operations that can fail with an error message. */
module Outcomes {

  datatype Option<T> = None | Some(value: T)

  datatype Result<T> = Ok(value: T) | Failure(error: string)
}
