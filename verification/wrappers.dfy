/** The optional-value datatype used for encoder state that may be unset. */
module Wrappers {

  datatype Option<+T> = None | Some(value: T)
}
