/** Small value types shared by the model: an optional value standing for a
    JavaScript property that may be `undefined`/`null`, and the truthiness
    rules the content script relies on when it writes `x || fallback` or
    `if (!x)`. */
module Values {

  /** A value that may be absent (`undefined` or `null` in the script). */
  datatype Option<+T> = None | Some(value: T) {

    /** The value if present, otherwise `default`. */
    function GetOr(default: T): T {
      match this
      case Some(v) => v
      case None => default
    }
  }

  /** JavaScript truthiness of an optional string: absent values and the
      empty string are falsy, every other string is truthy. */
  predicate Truthy(s: Option<string>) {
    s.Some? && s.value != ""
  }

  /** JavaScript `s || fallback` for an optional string. */
  function OrElse(s: Option<string>, fallback: string): string {
    if Truthy(s) then s.value else fallback
  }
}
