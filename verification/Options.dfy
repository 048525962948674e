/** A value that Python may leave as None. */
module Options {
  datatype Option<T> = None | Some(value: T)
}
