/** Failure-carrying results for the library's two raising operations. */
module Wrappers {

  /** The one exception kind the library raises, with the text it is raised with. */
  datatype Error = ValueError(message: string)

  /** Either the value a call returns or the exception it raises instead. */
  datatype Result<+T> = Ok(value: T) | Err(error: Error)
}
