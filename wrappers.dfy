/** The optional value the calendar uses for `null`/`undefined` results. */
module Wrappers {

  datatype Option<+T> = None | Some(value: T)

}
