/** The absent-or-present wrapper that stands for Java's nullable references. */
module Options {

  datatype Option<+T> = None | Some(value: T)
}
