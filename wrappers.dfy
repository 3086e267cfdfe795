/** Option type used for "found / not found" and for optional out-pointer writes. */
module Wrappers {

  datatype Option<+T> = None | Some(value: T)

}
