/** Optional values, standing in for Python's `None` and for a dictionary key
    that may be absent. */
module Values {

  datatype Option<+T> = None | Some(value: T)

}
