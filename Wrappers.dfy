/** The optional value used for "no match" and "no diff obtained". */
module Wrappers {

  datatype Option<+T> = None | Some(value: T)

}
