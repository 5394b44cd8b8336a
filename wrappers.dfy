/** The optional value returned where the source returns NULL or falls
    through to a default case. */
module Wrappers {
  datatype Option<T> = None | Some(value: T)
}
