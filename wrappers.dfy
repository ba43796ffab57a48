/** The optional-value wrapper shared by the other modules. */
module Wrappers {

  /** A value that may be absent; Ruby's `nil` result becomes `None`. */
  datatype Option<+T> = None | Some(value: T)
}
