/** An optional value: a JavaScript value that may be null, NaN or the empty string. */
module Wrappers {
  datatype Option<+T> = None | Some(value: T)
}
