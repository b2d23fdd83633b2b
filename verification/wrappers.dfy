/** Option: a handle slot that may be NULL. */
module Wrappers {

  datatype Option<+T> = None | Some(value: T)
}
