/** The optional value used wherever the program answers `None` or raises on a missing item. */
module Wrappers {

  datatype Option<+T> = None | Some(value: T)
}
