/** The optional value used for JavaScript's `null`-or-value globals and for failed parses. */
module Wrappers {
  datatype Option<+T> = None | Some(value: T)
}
