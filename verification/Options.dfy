/** A value that may be absent: a nil pointer or error, or a channel with nothing to receive. */
module Options {
  datatype Option<+T> = None | Some(value: T)
}
