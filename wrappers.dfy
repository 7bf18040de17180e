/** The optional value used for JSON fields that may be absent and for lookups that may fail. */
module Wrappers {
  datatype Option<+T> = None | Some(value: T)
}
