/** A value that may be missing: Python's `None` or a value. */
module Optional {
  datatype Option<T> = None | Some(value: T)
}
