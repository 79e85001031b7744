/** A value that JavaScript code may leave `null` (or `undefined`). */
module Optional {

  datatype Option<+T> = None | Some(value: T)
}
