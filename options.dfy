/** Optional values: a database row that may be missing, a JSON field that may be absent. */
module Options {
  datatype Option<T> = None | Some(value: T)
}
