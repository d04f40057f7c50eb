/** The optional value several components return. */
module Wrappers {
  datatype Option<+T> = None | Some(value: T)
}
