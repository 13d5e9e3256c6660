/** Optional values and the one piece of Python value semantics the model needs:
    the truthiness of an optional string (`None` and `""` are both falsy). */
module Wrappers {

  datatype Option<+T> = None | Some(value: T) {

    /** The value, or `default` when there is none (Python's `d.get(key, default)`). */
    function GetOr(default: T): T {
      match this
      case Some(v) => v
      case None => default
    }
  }

  /** Python's `if s:` on a `str | None`: true exactly for a present, non-empty string. */
  predicate Truthy(s: Option<string>) {
    s.Some? && s.value != ""
  }
}
