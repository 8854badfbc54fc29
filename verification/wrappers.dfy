/** The optional value used for a decode that may fail and for a hash that may not be set yet. */
module Wrappers {

  /** Either nothing (`None`) or one value (`Some`). */
  datatype Option<+T> = None | Some(value: T)
}
