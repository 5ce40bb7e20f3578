/** A value that may be absent: Python's `Optional[str]`, where `None` means "no abstract". */
module Wrappers {
  datatype Option<+T> = None | Some(value: T)
}
