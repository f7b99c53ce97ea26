/** The Option type used for the result of parsing one field of a row. */
module Wrappers {
  datatype Option<+T> = None | Some(value: T)
}
