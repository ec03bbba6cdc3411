/** A minimal optional value, used wherever the groundstation either produces
    a value or leaves the state it would have written untouched. */
module Optional {

  datatype Option<+T> = None | Some(value: T)
}
