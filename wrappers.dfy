/** The optional value shared by the resolver and the formatting bridge. */
module Wrappers {

  datatype Option<T> = None | Some(value: T)
}
