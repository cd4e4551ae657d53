/** An optional value: the source's `T | null` and `T | undefined`. */
module Option {
  datatype Option<+T> = None | Some(value: T)
}
