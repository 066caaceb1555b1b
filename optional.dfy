/** The optional result the curve code returns where a value may be absent. */
module Optional {

  datatype Option<T> = None | Some(value: T)
}
