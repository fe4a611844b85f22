/** The value that may be missing: the source's `optional`, null pointer or failed lookup. */
module Options {
  datatype Option<+T> = None | Some(value: T)
}
