/** A value that may be missing: a null pointer, a run cut short, a search that fails. */
module Options {
  datatype Option<T> = None | Some(value: T)
}
