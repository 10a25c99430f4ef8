/** The optional value used for empty grid cells and for "no falling piece". */
module Wrappers {

  datatype Option<+T> = None | Some(value: T)

}
