/** The optional value used for "no decision" and for an unset machine failure domain. */
module Wrappers {

  /** `None` stands for Go's nil pointer, `Some(v)` for a pointer to `v`. */
  datatype Option<+T> = None | Some(value: T)
}
