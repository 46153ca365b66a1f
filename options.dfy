/** An optional value: a nil pointer or an empty slot is None. */
module Options {
  datatype Option<T> = None | Some(value: T)
}
