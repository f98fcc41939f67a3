/** The optional value used for Python's `None` and for failed requests. */
module Wrappers {

  datatype Option<+T> = None | Some(value: T)
}
