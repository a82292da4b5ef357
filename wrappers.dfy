/** Option and Result types shared by the model. */
module Wrappers {

  /** A value that may be absent. */
  datatype Option<+T> = None | Some(value: T)

  /** The outcome of a JavaScript evaluation: a value, or a thrown TypeError. */
  datatype Result<+T> = Ok(value: T) | TypeError
}
