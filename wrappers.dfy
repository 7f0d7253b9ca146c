/** An optional value: the model's rendering of Python's `None` results. */
module Wrappers {
  datatype Option<+T> = None | Some(value: T)
}
