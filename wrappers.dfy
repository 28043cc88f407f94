/** The optional value used for missing table cells and for a step that may fail. */
module Wrappers {

  datatype Option<+T> = None | Some(value: T)
}
