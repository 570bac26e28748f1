/** The optional value used for results that may be missing (a parse that fails,
    a command that could not be started, a table with no selection). */
module Wrappers {

  datatype Option<+T> = None | Some(value: T)
}
