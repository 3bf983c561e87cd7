/** The optional value used throughout the model where the source returns
    `undefined` or `null`. */
module Wrappers {
  datatype Option<+T> = None | Some(value: T)
}
