/** An optional value: `getAttribute` answers `null` for an attribute that is not set. */
module Wrappers {
  datatype Option<T> = None | Some(value: T)
}
