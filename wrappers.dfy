/** An optional value: the clipboard before anything has been copied to it. */
module Wrappers {
  datatype Option<T> = None | Some(value: T)
}
