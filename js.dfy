/**
 * JavaScript-level notions the request handlers rely on: optional values
 * (a request field may be absent), truthiness of an optional string, and the
 * outcome of an awaited promise (resolved with a value, or rejected with an
 * error whose message the handlers must never reveal).
 */
module Js {

  datatype Option<+T> = None | Some(value: T) {
    function GetOr(default: T): T {
      match this
      case Some(v) => v
      case None => default
    }
  }

  /** The outcome of `await p`: the value `p` resolved with, or the message of the error it rejected with. */
  datatype Settled<+T> = Resolved(value: T) | Rejected(message: string)

  /**
   * `!!x` for a request field that is either absent or a string: `undefined`
   * and the empty string are falsy, every other string is truthy.
   */
  predicate Truthy(x: Option<string>) {
    x.Some? && x.value != ""
  }

  /** How express-validator reads a field before validating it: an absent field is the empty string. */
  function FieldString(x: Option<string>): (s: string)
    ensures x.Some? ==> s == x.value
    ensures !Truthy(x) <==> s == ""
  {
    x.GetOr("")
  }
}
