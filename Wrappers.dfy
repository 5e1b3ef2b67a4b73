/** The optional value that Java expresses with `null` or with a caught
    exception. */
module Wrappers {

  datatype Option<+T> = None | Some(value: T)
}
