/** The optional-value datatype used for the parser's exception paths. */
module Wrappers {

  /** A value that may be missing; `None` stands for a raised exception. */
  datatype Option<+T> = None | Some(value: T)
}
