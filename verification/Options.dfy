/** A value that may be absent: the source's NULL and "not found" results. */
module Options {
  datatype Option<+T> = None | Some(value: T)
}
