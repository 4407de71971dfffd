/** The optional value used where JavaScript returns `undefined` or a value. */
module Wrappers {
  datatype Option<+T> = None | Some(value: T)
}
