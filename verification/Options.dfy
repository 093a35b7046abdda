/** A value that may be absent: Python's `None`, or a nullable column. */
module Options {
  datatype Option<+T> = None | Some(value: T)
}
