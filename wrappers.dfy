/** The optional value used throughout the model: `None` is JavaScript's `undefined`/`null`. */
module Wrappers {
  datatype Option<+T> = None | Some(value: T)
}
