/** The optional value returned by the source's `dict.get` and by a parser that may fail. */
module Wrappers {
  datatype Option<+T> = None | Some(value: T)
}
