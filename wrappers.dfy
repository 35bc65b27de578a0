/** The optional value used where the policy returns `None`. */
module Wrappers {
  datatype Option<+T> = None | Some(value: T)
}
