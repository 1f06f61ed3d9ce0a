/** The optional value used for JavaScript's nullable values (`T | null`). */
module Wrappers {
  datatype Option<+T> = None | Some(value: T)
}
