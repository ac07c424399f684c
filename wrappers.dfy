/** The Some/None datatype, used wherever the source passes a reference that may be null
    or a comparison that may fail. */
module Wrappers {

  datatype Option<+T> = None | Some(value: T)
}
