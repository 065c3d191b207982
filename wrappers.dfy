/** The optional value that Python code writes as `x` or `None`. */
module Wrappers {

  datatype Option<+T> = None | Some(value: T)
}
