/** The result type of operations that may have nothing to return. */
module Wrappers {

  datatype Option<+T> = None | Some(value: T)
}
