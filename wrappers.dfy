/** The optional value used for Python's `None` and for failed look-ups. */
module Wrappers {

  datatype Option<T> = None | Some(value: T)
}
