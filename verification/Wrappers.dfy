/** The optional value the protocol modules share. */
module Wrappers {
  datatype Option<T> = None | Some(value: T)
}
