/** The optional value used where the source returns null or throws on an empty input. */
module Wrappers {

  datatype Option<+T> = None | Some(value: T)
}
