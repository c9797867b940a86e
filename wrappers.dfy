/** The optional value a map lookup yields. */
module Wrappers {

  datatype Option<+T> = None | Some(value: T)
}
