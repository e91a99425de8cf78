/** Python's `Optional`, shared by the registry modules. */
module Wrappers {

  /** Python's `Optional[T]`: a value, or `None`. */
  datatype Option<+T> = None | Some(value: T)
}
