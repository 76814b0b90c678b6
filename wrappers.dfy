/** A value that may be absent: the model's stand-in for a nullable reference. */
module Wrappers {
  datatype Option<+T> = None | Some(value: T)
}
