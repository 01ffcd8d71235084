/** The optional-value type shared by the parsers and the store. */
module Wrappers {

  datatype Option<+T> = None | Some(value: T)
}
