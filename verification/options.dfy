/** The optional-value type used throughout the model: `None` stands for
    Python's `None` return value and for an operation that raised. */
module Options {

  datatype Option<+T> = None | Some(value: T)
}
