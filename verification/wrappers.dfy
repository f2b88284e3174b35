/** The optional-value datatype used where the library uses `Option`. */
module Wrappers {

  datatype Option<+T> = None | Some(value: T)
}
