/** Optional values, used where the bot reads something that may be absent:
    a page whose text could not be extracted, a session key that was never
    set, a file that could not be opened as a PDF. */
module Wrappers {

  datatype Option<+T> = None | Some(value: T) {

    /** The value, or `default` when there is none (Python's `d.get(k, default)`). */
    function GetOr(default: T): T
    {
      match this
      case Some(v) => v
      case None => default
    }
  }
}
