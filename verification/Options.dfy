/** A value that may be missing: the C code's null pointers. */
module Options {
  datatype Option<+T> = None | Some(value: T)
}
