/** A JavaScript value that may be `null`/`undefined` (or, for a parsed
    number, `NaN`) is an `Option`. */
module Wrappers {
  datatype Option<+T> = None | Some(value: T)
}
