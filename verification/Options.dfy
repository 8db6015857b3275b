/** A value that may be missing: a null pointer, an exception, a call that blocks. */
module Options {
  datatype Option<+T> = None | Some(value: T)
}
