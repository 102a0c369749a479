/** The optional value used wherever the Python code may produce `None` or fail. */
module Wrappers {
  datatype Option<+T> = None | Some(value: T)
}
