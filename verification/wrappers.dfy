/** The absent-or-present result used where the source returns `None`. */
module Wrappers {

  datatype Option<+T> = None | Some(value: T)
}
