/** A value that may be missing: the source's NULL and its panics. */
module Options {
  datatype Option<T> = None | Some(value: T)
}
