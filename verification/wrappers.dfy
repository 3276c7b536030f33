/** The optional value that JavaScript expresses as `undefined`. */
module Wrappers {

  datatype Option<+T> = None | Some(value: T)
}
