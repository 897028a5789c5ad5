/** A value that may be absent: the model of a JavaScript property that is
    `undefined` or `null`. */
module Wrappers {
  datatype Option<T> = None | Some(value: T)
}
