/** The optional-value datatype used throughout the model. */
module Wrappers {

  /** A value that may be absent: a missing array element after destructuring, or a
      conversion whose input lies outside the model. */
  datatype Option<+T> = None | Some(value: T)
}
