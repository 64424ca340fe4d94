/** A value that may be missing: an unread file, an absent API field, no regex match. */
module Wrappers {
  datatype Option<T> = None | Some(value: T)
}
