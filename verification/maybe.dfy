/** Optional values and keyword arguments.

    `Option` stands for Python's `X | None`; `Arg` stands for a keyword argument
    that may be left out of a call, so that `kwargs.get(key, default)` can tell
    "omitted" apart from "given as None".
 */
module Maybe {

  datatype Option<+T> = None | Some(value: T) {

    /** The wrapped value, or `default` when there is none. */
    function GetOr(default: T): T
    {
      match this
      case Some(v) => v
      case None => default
    }
  }

  /** Python truthiness of an optional flag: only `True` is truthy; `None` and
      `False` are not. */
  predicate Truthy(flag: Option<bool>)
  {
    flag == Some(true)
  }

  /** A keyword argument as the caller wrote it. */
  datatype Arg<+T> = Omitted | Given(value: T) {

    /** `kwargs.get(key, default)`. */
    function Or(default: T): T
    {
      match this
      case Given(v) => v
      case Omitted => default
    }
  }
}
