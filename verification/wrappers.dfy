/** Failure-carrying values shared by the other modules. */
module Wrappers {

  /** A value that may be absent: the model of a Python call that can raise or find nothing. */
  datatype Option<+T> = None | Some(value: T)
}
