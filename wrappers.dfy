/** The optional value used for Python's `None` references and missing results. */
module Wrappers {
  datatype Option<+T> = None | Some(value: T)
}
