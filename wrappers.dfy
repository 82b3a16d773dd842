/** The optional value used where the source passes a callback that may be absent. */
module Wrappers {
  datatype Option<+T> = None | Some(value: T)
}
