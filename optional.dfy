/** JavaScript's "null / undefined or a value", used for every optional field of the model, and
    the outcome of an operation that can throw. */
module Optional {

  datatype Option<+T> = None | Some(value: T)

  /** A value, or an exception thrown (a TypeError reading a property of undefined, say). */
  datatype Result<+T> = Ok(value: T) | Throw

}
