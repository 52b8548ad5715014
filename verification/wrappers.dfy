/** Optional values and results, standing in for Java's null returns and
    for the exceptions the services throw and catch. */
module Wrappers {

  /** A Java reference that may be null. */
  datatype Option<+T> = None | Some(value: T)

  /** A value, or the message of the exception that replaced it. */
  datatype Result<+T> = Ok(value: T) | Err(message: string)
}
