/** The optional value used across the model: JavaScript's `null`/`undefined` versus a present value. */
module Options {
  datatype Option<T> = None | Some(value: T)
}
