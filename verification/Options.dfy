/** The conventional optional value, used for null pointers and absent results. */
module Options {
  datatype Option<+T> = None | Some(value: T)
}
