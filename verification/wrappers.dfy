/** The optional-value type used throughout the model: the source's `undefined`
    results (`find` without a match, a search result that has not arrived yet)
    and the values of streams that have not emitted become `None`. */
module Wrappers {

  datatype Option<+T> = None | Some(value: T) {

    /** The value, or `default` when absent (the source's `?? default`). */
    function GetOr(default: T): T {
      match this
      case Some(v) => v
      case None => default
    }
  }
}
