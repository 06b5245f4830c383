/** The optional value used for the drawing item's "no previous point" and for a failed lookup. */
module Wrappers {

  datatype Option<+T> = None | Some(value: T)
}
