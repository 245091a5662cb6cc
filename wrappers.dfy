/** The absent-or-present value used for optional fields, optional filters and failed lookups. */
module Wrappers {

  datatype Option<+T> = None | Some(value: T)
}
