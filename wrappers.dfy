/** Rust's Option, as returned by `str::find`, `Path::file_name` and `Path::parent`. */
module Wrappers {

  datatype Option<+T> = None | Some(value: T) {

    /** Option::unwrap_or */
    function UnwrapOr(default: T): T {
      match this
      case Some(v) => v
      case None => default
    }
  }
}
