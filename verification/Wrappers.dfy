/** A value that may be missing, used by every part of the model. */
module Wrappers {
  datatype Option<+T> = None | Some(value: T)
}
