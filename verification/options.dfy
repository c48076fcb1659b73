/** Values that may be missing, such as an empty hot-list slot or a wake-up time when nothing is left to do. */
module Options {
  datatype Option<+T> = None | Some(value: T)
}
