/** The absent-or-present value used wherever the source reads `undefined`, `null` or a missing field. */
module Options {
  datatype Option<+T> = None | Some(value: T) {
    function GetOr(default: T): T {
      match this
      case Some(v) => v
      case None => default
    }
  }
}
