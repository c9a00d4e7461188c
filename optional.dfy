/** A value that may be missing: used for the string-to-direction parse and for
    runs that stop before the source's loop would have. */
module Optional {
  datatype Option<T> = None | Some(value: T)
}
