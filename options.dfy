/** Optional values: a nil pointer is `None`. */
module Options {

  datatype Option<+T> = None | Some(value: T)
}
