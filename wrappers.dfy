/** The optional value used for edge weights and for the optional search target. */
module Wrappers {

  datatype Option<+T> = None | Some(value: T)

}
