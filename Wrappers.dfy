/** The optional-value datatype used by the scans and by comments without a body. */
module Wrappers {

  datatype Option<+T> = None | Some(value: T)
}
