/** Failure-compatible wrappers shared by every module: `Option` for nullable
    values (JavaScript `undefined`/`NaN`, Java `null`) and `Result` for
    operations that throw or stop early. */
module Base {

  datatype Option<+T> = None | Some(value: T) {
    function GetOr(default: T): T {
      match this
      case Some(v) => v
      case None => default
    }
  }

  datatype Result<+T, +E> = Ok(value: T) | Err(error: E)
}
