/** The optional-value type used throughout the model: `None` stands for the
    source's `null` (no title found, an unparsable timestamp, a throwing decode). */
module Wrappers {

  datatype Option<+T> = None | Some(value: T) {

    /** The value, or `default` when there is none. */
    function GetOr(default: T): T {
      if Some? then value else default
    }

    /** `this` when it holds a value, `other` otherwise (JavaScript's `a || b` on match results). */
    function OrElse(other: Option<T>): Option<T> {
      if Some? then this else other
    }
  }
}
