/** An optional value, shared by the parsers of this project. */
module Wrappers {

  /** Either a value (`Some`) or nothing (`None`). */
  datatype Option<+T> = None | Some(value: T)
}
