/** The failure-carrying result used for a Python call that may raise. */
module Wrappers {

  /** `None` stands for an exception; `Some(v)` for a returned value `v`. */
  datatype Option<+T> = None | Some(value: T)
}
