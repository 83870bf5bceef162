/** The conventional optional value, used where the loader yields `null`/`undefined`. */
module Wrappers {
  datatype Option<+T> = None | Some(value: T)
}
