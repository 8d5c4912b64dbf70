/** A value that may be missing: what a DOM query returns when nothing matches (`null`). */
module Options {
  datatype Option<+T> = None | Some(value: T)
}
