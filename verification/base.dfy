/** Small shared datatypes. */
module Base {

  /** An optional value: `None` stands for JavaScript's `undefined`/`null`
      (or `NaN` for a failed number parse). */
  datatype Option<+T> = None | Some(value: T)
}
