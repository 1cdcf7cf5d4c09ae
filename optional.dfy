/** A value that may be absent: the page's `null`. */
module Optional {

  datatype Option<T> = None | Some(value: T)
}
