/** Optional values, for Python's None and for a dictionary lookup that may miss. */
module Options {

  datatype Option<T> = None | Some(value: T)
}
