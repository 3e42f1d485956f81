/** An optional value shared by the redaction and user-store models. */
module Wrappers {

  /** An optional value: `None` where the source has no match or no record. */
  datatype Option<+T> = None | Some(value: T)
}
