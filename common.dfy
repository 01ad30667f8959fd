/** Small shared vocabulary: optional values, success-or-error results and
    the JavaScript truthiness test the tools apply to their string inputs. */
module Common {

  datatype Option<+T> = None | Some(value: T) {
    /** The value, or `default` when absent (JavaScript default parameters). */
    function GetOr(default: T): T {
      match this
      case Some(v) => v
      case None => default
    }
  }

  /** A call that either returns a value or throws an error carrying a message. */
  datatype Result<+R, +E> = Success(value: R) | Failure(error: E)

  /** A string-valued input is truthy when it is present and not the empty
      string; `!x` holds of `undefined`, `null` and `""`. */
  predicate Truthy(x: Option<string>) {
    x.Some? && x.value != ""
  }

  /** No element occurs twice. */
  predicate NoDup<T(==)>(s: seq<T>) {
    forall i, j :: 0 <= i < j < |s| ==> s[i] != s[j]
  }
}
