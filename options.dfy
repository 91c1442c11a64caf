/** Optional values: a fetch or a lookup that may produce nothing. */
module Options {
  datatype Option<+T> = None | Some(value: T)
}
