/** Optional values (JavaScript `undefined`) and outcomes of calls that may throw. */
module Wrappers {

  /** A value that may be absent, as a JavaScript property that may be `undefined`. */
  datatype Option<+T> = None | Some(value: T)

  /** The outcome of a computation that may throw: a value, or an exception. */
  datatype Result<+T> = Ok(value: T) | Threw
}
