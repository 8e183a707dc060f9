/** The optional value used wherever the server works with `null`,
    `undefined` or a caught exception. */
module Wrappers {

  datatype Option<+T> = None | Some(value: T)
}
