/** Option type for the source's NULL-or-address results. */
module Wrappers {
  datatype Option<+T> = None | Some(value: T)
}
