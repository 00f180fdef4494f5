/** The optional value used wherever the Go source has a nil-able pointer,
    function or error. */
module Wrappers {

  datatype Option<+T> = None | Some(value: T)
}
