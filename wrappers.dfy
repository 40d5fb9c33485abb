/** The optional-value datatype used for error paths (an overflowing sum, a short buffer). */
module Wrappers {
  datatype Option<+T> = None | Some(value: T)
}
