/** A value that may be absent: SQL NULL, Python None, JavaScript null or undefined. */
module Options {
  datatype Option<+T> = None | Some(value: T)
}
