/** A value that may be missing: a nil result, or a panic where a function has no result at all. */
module Wrappers {

  datatype Option<+T> = None | Some(value: T)
}
