/** What every limiter of the toolkit shares: the decision it returns and the
    validation of its arguments. Times are integer nanoseconds. */
module Ratelimit {

  datatype Option<+T> = None | Some(value: T)

  datatype Result = Result(allowed: bool, limit: int, remaining: int, resetAfter: int, retryAfter: int)

  /** The answer to an invalid key or an invalid count. */
  const REJECTED := Result(false, 0, 0, 0, 0)

  predicate ValidKey(key: string) {
    0 < |key| <= 512 && forall c | c in key :: c != '\0' && c != '\r' && c != '\n'
  }

  function Max(a: int, b: int): int {
    if a > b then a else b
  }

  function Min(a: int, b: int): int {
    if a < b then a else b
  }

  /** One call for `n` units at time `now`. */
  datatype Request = Request(now: int, n: int)

  ghost predicate Monotone(rs: seq<Request>) {
    forall i, j | 0 <= i < j < |rs| :: rs[i].now <= rs[j].now
  }
}
