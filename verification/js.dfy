/** The few JavaScript notions the configuration stores lean on: `undefined`
    as an optional value, a thrown exception as the failure half of a result,
    and the truthiness that drives the `a || b` fallbacks of the error
    messages. */
module Js {

  /** An optional value: `None` is JavaScript's `undefined`. */
  datatype Option<+T> = None | Some(value: T)

  /** The outcome of a call that either returns a value or throws. */
  datatype Result<+T, +X> = Success(value: T) | Failure(error: X) {

    predicate IsFailure() {
      Failure?
    }

    function PropagateFailure<U>(): Result<U, X>
      requires Failure?
    {
      Failure(error)
    }

    function Extract(): T
      requires Success?
    {
      value
    }
  }

  /** Truthiness of an optional string: `undefined` and `""` are falsy. */
  predicate Truthy(s: Option<string>) {
    s.Some? && s.value != ""
  }

  /** `a || b` for an optional string `a` and a string `b`. */
  function Or(a: Option<string>, b: string): string {
    if Truthy(a) then a.value else b
  }

  /** `a?.concat(b)`: optional chaining on a possibly undefined string. */
  function ConcatOpt(a: Option<string>, b: string): Option<string> {
    match a
    case None => None
    case Some(s) => Some(s + b)
  }

  predicate EndsWith(s: string, suffix: string) {
    |suffix| <= |s| && s[|s| - |suffix|..] == suffix
  }

  /** A string contains `part` somewhere (`String.prototype.includes`). */
  predicate Contains(s: string, part: string) {
    exists i | 0 <= i <= |s| :: part <= s[i..]
  }
}
