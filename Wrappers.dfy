/** An optional value, used across the model. */
module Wrappers {

  /** A value that may be absent, as Python's `None` or a tag object. */
  datatype Option<+T> = None | Some(value: T)
}
