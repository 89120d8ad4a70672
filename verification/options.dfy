/** Optional values: a library call that can throw returns `None` instead. */
module Options {

  datatype Option<+T> = None | Some(value: T)
}
