/** Optional values, used for every request field that a client may omit. */
module Wrappers {

  /** `None` is a field that is absent from a JSON body (JavaScript `undefined`). */
  datatype Option<+T> = None | Some(value: T) {

    /** The carried value, or `default` when the field is absent. */
    function GetOr(default: T): T {
      match this
      case Some(v) => v
      case None => default
    }
  }
}
