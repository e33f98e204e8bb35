/** A value that may be missing: a JSON field that was never written, a row id
    that is not in the table. */
module Options {

  datatype Option<+T> = None | Some(value: T) {

    /** The value, or `default` when it is missing (JavaScript's `x || default`
        for a field whose only falsy value is the missing one or `default`). */
    function GetOr(default: T): T {
      match this
      case Some(v) => v
      case None => default
    }
  }
}
