/** Option type shared by the index and the replacement-policy modules: `None` plays the part of a NULL pointer. */
module Wrappers {
  datatype Option<+T> = None | Some(value: T)
}
