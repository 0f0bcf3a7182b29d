/** The optional value shared by the root finder and the form validators. */
module Wrappers {
  /** `None` stands for Python's `None` (no value, no message). */
  datatype Option<+T> = None | Some(value: T)
}
