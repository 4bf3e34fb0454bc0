/** The optional value used for a missing character and for "no notice". */
module Wrappers {
  datatype Option<+T> = None | Some(value: T)
}
