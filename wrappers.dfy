/** The optional-value datatype used across the model for "found / not found". */
module Wrappers {

  datatype Option<+T> = None | Some(value: T)
}
