/** A value that may be absent: JavaScript's `undefined` or `null` result of a lookup. */
module Optional {
  datatype Option<+T> = None | Some(value: T)
}
