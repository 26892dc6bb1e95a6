/** The optional value used where the source produces `NaN` for "no number". */
module Wrappers {

  datatype Option<+T> = None | Some(value: T)
}
