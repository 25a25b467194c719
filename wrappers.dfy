/** The "no value" results of the source: a Python `return` without a value is `None`. */
module Wrappers {

  datatype Option<+T> = None | Some(value: T)
}
