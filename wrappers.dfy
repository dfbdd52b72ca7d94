/** The absent-or-present value used for attributes the page may not carry. */
module Wrappers {
  datatype Option<+T> = None | Some(value: T)
}
