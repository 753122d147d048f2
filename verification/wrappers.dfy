/** A value that may be missing. */
module Wrappers {

  datatype Maybe<+T> = None | Some(value: T)
}
