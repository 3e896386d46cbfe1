/** An optional value: the outcome of a call into an external service that
    either produced a value or raised. */
module Maybe {

  datatype Option<+T> = None | Some(value: T)
}
