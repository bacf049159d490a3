/** A value that may be absent: a Go nil pointer, or a lookup that can miss. */
module Options {
  datatype Option<+T> = None | Some(value: T)
}
