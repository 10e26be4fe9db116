/** An optional value, for the fields of a control message that may be absent. */
module Optional {

  datatype Option<+T> = None | Some(value: T)
}
