/** The failure-compatible result of a curve evaluation. */
module Wrappers {
  datatype Option<+T> = None | Some(value: T)
}
