/** An optional value: the model's stand-in for a Python result that may be
    missing (a failed conversion, an exception turned into `None`). */
module Wrappers {
  datatype Option<+T> = None | Some(value: T)
}
