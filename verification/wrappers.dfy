/** The optional value used for the source's `null`-or-value fields. */
module Wrappers {

  datatype Option<+T> = None | Some(value: T)
}
