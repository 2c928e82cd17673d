/** Small failure-carrying datatypes shared by the blog model. */
module Wrappers {

  datatype Option<T> = None | Some(value: T)

  /** The one failure this model covers: a post id at or past the end of the list. */
  datatype Error = IndexError

  /** A value, or the error the Python code would raise instead of returning it. */
  datatype Result<T> = Ok(value: T) | Err(error: Error)

  /** The outcome of a handler that returns nothing on success. */
  datatype Outcome = Pass | Fail(error: Error)
}
