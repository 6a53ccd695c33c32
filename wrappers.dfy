/** The optional value used wherever the source yields `null`/`undefined` or a "not found" answer. */
module Wrappers {
  datatype Option<T> = None | Some(value: T)
}
