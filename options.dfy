/** An optional value, standing for JavaScript's -1 / undefined results and thrown TypeErrors. */
module Options {
  datatype Option<T> = None | Some(value: T)
}
