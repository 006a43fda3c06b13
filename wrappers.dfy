/** An optional value, as Python's `None` or a value: a `find` that fails,
    a header that was not sent, a passphrase that is not configured. */
module Wrappers {
  datatype Option<+T> = None | Some(value: T)
}
