/** The optional value used throughout the model. */
module Optional {

  /** `None` stands for PHP's "nothing set", `Some(v)` for a present value. */
  datatype Option<+T> = None | Some(value: T)
}
