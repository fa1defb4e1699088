/** An optional value: what a search finds, or nothing. */
module Wrappers {
  datatype Option<T> = None | Some(value: T)
}
