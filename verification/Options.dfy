/** A value that may be absent, where the code returns a null pointer or a flag. */
module Options {
  datatype Option<+T> = None | Some(value: T)
}
