/** A value that may be missing: a NULL column, `undefined`, or a reader's `null`. */
module Options {

  datatype Option<+T> = None | Some(value: T)
}
