/** The optional value used where the browser API answers `null`. */
module Wrappers {
  datatype Option<+T> = None | Some(value: T)
}
