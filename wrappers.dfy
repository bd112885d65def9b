/** The optional value used wherever the scripts use `None` or a failing call. */
module Wrappers {

  datatype Option<+T> = None | Some(value: T)
}
