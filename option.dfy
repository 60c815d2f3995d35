/** `null`/`undefined` versus a present value, as the TypeScript code uses them. */
module Optional {

  datatype Option<+T> = None | Some(value: T) {

    /** The present value, or `default` when there is none (`x ?? default`). */
    function GetOr(default: T): T {
      match this
      case Some(v) => v
      case None => default
    }
  }
}
