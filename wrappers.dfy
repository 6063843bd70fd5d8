/** The failure-compatible optional value used for the sampler's `(None, None)` result. */
module Wrappers {

  datatype Option<+T> = None | Some(value: T)
}
