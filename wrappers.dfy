/** The optional value used wherever the source gets `None` back from a regex search. */
module Wrappers {
  datatype Option<T> = None | Some(value: T)
}
