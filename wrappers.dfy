/** The optional value used for the store's verdict and for parsing results. */
module Wrappers {

  datatype Option<+T> = None | Some(value: T)
}
