/** Optional values, the exceptions the Python code raises, and the result
    type through which every operation of the model reports them. */
module Results {

  /** A Python value that may be `None`. */
  datatype Option<+T> = None | Some(value: T) {
    /** `value if value is not None else default`, as `dict.get(key, default)` gives it. */
    function GetOr(default: T): T {
      match this
      case Some(v) => v
      case None => default
    }
  }

  /** The exceptions the modelled code can raise, with what identifies each. */
  datatype Error =
    /** `KeyError`: a module name looked up in a dict that does not hold it. */
    | NameKeyError(name: string)
    /** `KeyError`: a path looked up in the dependency graph that does not hold it. */
    | PathKeyError(path: seq<string>)
    /** `ValueError` of a two-way unpacking that received `got` values. */
    | UnpackError(got: nat)
    /** `ValueError` of `PurePath.relative_to`: `path` does not start with `root`. */
    | NotRelativeError(path: seq<string>, root: seq<string>)
    /** `RuntimeError` raised when a git command exits with a non-zero status. */
    | GitError(message: string)

  /** The value of a Python call that returns normally, or the exception it raises. */
  datatype Result<+T> = Ok(value: T) | Err(error: Error)

  /** The outcome of a Python call that returns `None`, or the exception it raises. */
  datatype Outcome = Pass | Fail(error: Error)
}
