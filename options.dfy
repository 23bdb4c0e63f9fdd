/** A value that may be absent: a Mongoose field holding `null`, or a session key that was never set. */
module Options {
  datatype Option<T> = None | Some(value: T)
}
