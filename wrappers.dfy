/** The optional value used for error returns across the model. */
module Wrappers {
  datatype Option<+T> = None | Some(value: T)
}
