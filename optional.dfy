/** A value that may be absent: an `<img>` without a `src`, or no logo found. */
module Optional {
  datatype Option<T> = None | Some(value: T)
}
