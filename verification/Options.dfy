/** A value that may be absent: the source's `ok` and `error` results. */
module Options {
  datatype Option<+T> = None | Some(value: T)
}
