/** The optional value used for nullable columns and "first failing check" results. */
module Wrappers {
  datatype Option<T> = None | Some(value: T)
}
