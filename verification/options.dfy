/** An optional value: used where the source can come back with nothing
    (an empty `Optional`, a `null` lookup). */
module Options {

  datatype Option<+T> = None | Some(value: T)
}
