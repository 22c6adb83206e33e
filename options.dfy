/** An optional value: `None` stands for JavaScript's `undefined` (a missing
    property, a failed lookup) or for `NaN` where a number is expected. */
module Options {
  datatype Option<T> = None | Some(value: T)
}
