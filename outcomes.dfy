/** Optional values and the outcome of an operation that can throw. */
module Outcomes {
  datatype Option<T> = None | Some(value: T)

  /** `Failure` stands for an exception the source throws. */
  datatype Result<T> = Ok(value: T) | Failure(error: string)
}
