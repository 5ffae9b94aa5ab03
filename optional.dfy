/** The absent-or-present value used wherever the agent reads an optional key
    (`dict.get`) or an optional command-line argument. */
module Optional {

  datatype Option<+T> = None | Some(value: T) {

    /** The value when present, otherwise `default` (Python's `d.get(key, default)`). */
    function GetOr(default: T): T {
      match this
      case Some(v) => v
      case None => default
    }
  }
}
