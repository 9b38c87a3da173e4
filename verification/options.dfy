/** A value that may be missing: JavaScript's `undefined`/`null` for a field,
    a document that has not loaded, or a signed-out user. */
module Options {

  datatype Option<+T> = None | Some(value: T) {

    /** The value, or `fallback` when it is missing. */
    function GetOr(fallback: T): T {
      match this
      case Some(v) => v
      case None => fallback
    }
  }
}
