/** The optional value used wherever the Go code returns nil or an error alongside a value. */
module Wrappers {

  datatype Option<+T> = None | Some(value: T)
}
