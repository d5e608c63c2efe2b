/** `nil` or a value: the shape of what the script returns where it can give `nil`. */
module Wrappers {

  /** `None` stands for Ruby's `nil`; `Some(v)` for a real value. */
  datatype Option<+T> = None | Some(value: T)
}
