/** The optional value used throughout the model for JavaScript's `null`/`undefined`
    and for a lookup or a decoding that finds nothing. */
module Wrappers {
  datatype Option<+T> = None | Some(value: T)
}
