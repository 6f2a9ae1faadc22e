/** Optional values and failure-carrying results for the editor's model. */
module Wrappers {

  datatype Option<T> = None | Some(value: T)

  /** The value a promise resolves to, or the message of the error it rejects with. */
  datatype Result<T> = Ok(value: T) | Err(cause: string)
}
