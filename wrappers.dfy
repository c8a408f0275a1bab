/** The optional value used where a parse or a walk can fail. */
module Wrappers {
  datatype Option<T> = None | Some(value: T)
}
