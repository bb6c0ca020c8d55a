/** The result of an operation that may find nothing. */
module Options {
  datatype Option<+T> = None | Some(value: T)
}
