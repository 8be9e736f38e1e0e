/** The optional value used wherever the JavaScript code has a value that
    may be `null` or `undefined`. */
module Wrappers {

  datatype Option<+T> = None | Some(value: T)
}
