/** A value that may be absent: an unarmed timer, a NULL pointer. */
module Options {
  datatype Option<+T> = None | Some(value: T)
}
