/** The optional-value datatype used for "no match" and "None" results throughout the model. */
module Wrappers {
  datatype Option<+T> = None | Some(value: T)
}
