/** The optional value used for results that can be missing. */
module Wrappers {
  datatype Option<T> = None | Some(value: T)
}
