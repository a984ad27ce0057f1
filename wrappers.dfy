/** The optional value used for "no instruction" results. */
module Wrappers {
  datatype Option<+T> = None | Some(value: T)
}
