/** An optional value: NULL, or the thing pointed to. */
module Options {
  datatype Option<+T> = None | Some(value: T)
}
