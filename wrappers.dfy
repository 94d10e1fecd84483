/** The optional-value datatype used throughout the model: an element the page
    may lack, a rule without a pattern. */
module Wrappers {
  datatype Option<+T> = None | Some(value: T)
}
