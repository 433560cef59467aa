/** A value that may be missing: a JavaScript `null`, or the `NaN` that
    `parseInt` returns when it finds no digits. */
module Options {

  datatype Option<+T> = None | Some(value: T)
}
