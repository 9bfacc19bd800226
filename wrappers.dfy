/** The optional value used for JavaScript's `null` and for missing fields. */
module Wrappers {
  datatype Option<+T> = None | Some(value: T)
}
