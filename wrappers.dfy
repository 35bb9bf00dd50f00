/** The optional value used wherever the page holds "maybe nothing":
    a missing exam id, no current exam, an absent stored theme. */
module Wrappers {

  datatype Option<+T> = None | Some(value: T) {

    /** The value, or `default` when there is none. */
    function GetOr(default: T): T {
      match this
      case Some(v) => v
      case None => default
    }
  }
}
