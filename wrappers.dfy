/** Small helper datatypes shared by the other modules. */
module Wrappers {

  /** Go's nil-or-value: `None` stands for a nil slice or a nil error. */
  datatype Option<T> = None | Some(value: T)
}
