/** A value that may be absent: SQL NULL for a nullable column, a missing dictionary key. */
module Optional {
  datatype Option<+T> = None | Some(value: T)
}
