/** An optional value: Python's `None`, or an SQL `NULL`, against a value. */
module Options {
  datatype Option<+T> = None | Some(value: T)
}
