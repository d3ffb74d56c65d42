/** An argument the source allows to be NULL, or a value that may be absent. */
module Options {
  datatype Option<+T> = None | Some(value: T)
}
