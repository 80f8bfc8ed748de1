/** The optional-value type shared by the parser and the command handler. */
module Wrappers {

  /** Some(value) on success; None where Python would raise. */
  datatype Option<+T> = None | Some(value: T)
}
