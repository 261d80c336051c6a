/** The absent-or-present value used for parse results and validation records. */
module Wrappers {

  datatype Option<+T> = None | Some(value: T)

}
