/** A value that may be missing. The model uses it for an environment variable that is not
    set, a JSON field the reply does not carry, and an aisle search that finds no aisle. */
module Optional {

  datatype Option<+T> = None | Some(value: T)
}
