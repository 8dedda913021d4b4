/** The optional value used wherever the source has a missing key, `None`, or `undefined`. */
module Wrappers {

  datatype Option<+T> = None | Some(value: T)
}
