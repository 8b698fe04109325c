/** The optional value used throughout the model; `None` also stands for Python's `None`. */
module Wrappers {
  datatype Option<+T> = None | Some(value: T)
}
