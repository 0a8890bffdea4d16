/** The optional value used for lookups that may find nothing and for pattern matches. */
module Wrappers {

  datatype Option<+T> = None | Some(value: T)
}
