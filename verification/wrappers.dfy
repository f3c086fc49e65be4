/** The Option type used by both the link scanner and the search driver. */
module Wrappers {
  datatype Option<+T> = None | Some(value: T)
}
