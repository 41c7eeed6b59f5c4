/** The optional value used for dialogs and for the float formatting that may fail. */
module Wrappers {
  datatype Option<+T> = None | Some(value: T)
}
