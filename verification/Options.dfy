/** A value that may be missing: a NULL pointer, an error instead of a result. */
module Options {
  datatype Option<T> = None | Some(value: T)
}
