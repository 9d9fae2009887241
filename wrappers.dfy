/** Option: a value or C's null pointer. */
module Wrappers {

  datatype Option<+T> = None | Some(value: T)
}
