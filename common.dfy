/** Small shared datatypes. */
module Common {

  /** An optional value: a JavaScript reference that may be null, a lookup that may fail. */
  datatype Option<T> = None | Some(value: T)
}
