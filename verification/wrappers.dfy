/** The optional value the source's `Option` return types stand for. */
module Wrappers {

  datatype Option<+T> = None | Some(value: T)
}
