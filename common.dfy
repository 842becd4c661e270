/** Small wrapper datatypes shared by the match and manifest models. */
module Common {

  /** Go's nil-or-value: `None` stands for a nil interface or nil pointer. */
  datatype Option<+T> = None | Some(value: T)

  /** The result of a Go function that may abort with a runtime panic
      (an unchecked type assertion that fails). */
  datatype Outcome<+T> = Ok(value: T) | Panic
}
