/** The optional value used for the source's `null` results and thrown exceptions. */
module Wrappers {

  datatype Option<T> = None | Some(value: T)
}
