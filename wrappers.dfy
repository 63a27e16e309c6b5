/** The optional value used for the grid's `tooltip?` field. */
module Wrappers {
  datatype Option<+T> = None | Some(value: T)
}
