/** A value, or none. */
module Wrappers {

  datatype Option<+T> = None | Some(value: T)
}
