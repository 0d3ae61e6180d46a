/** Shared vocabulary of the repository miner: optional values, fetch
    results, the credential check, record caps and instants in time. */
module Common {

  datatype Option<+T> = None | Some(value: T)

  datatype Result<+R, +E> = Success(value: R) | Failure(error: E)

  /** The one error a fetcher raises itself: the GITHUB_TOKEN variable is
      unset or empty (Python's EnvironmentError). */
  datatype FetchError = MissingToken

  /** An instant, as whole seconds since the Unix epoch (UTC). */
  type Timestamp = int

  const SecondsPerDay: int := 86400

  /** `if not token: raise ...` — both None and the empty string fail. */
  function HasToken(token: Option<string>): (ok: bool)
    ensures token.None? ==> !ok
    ensures token == Some("") ==> !ok
    ensures token.Some? && |token.value| > 0 ==> ok
  {
    token.Some? && token.value != ""
  }

  /** How many records a fetch loop produces when `k` items pass its filter:
      the loop breaks as soon as its counter `i`, starting from 0, satisfies
      `i >= max`, so a negative cap behaves like 0 and no cap keeps all. */
  function Cap(max: Option<int>, k: nat): (n: nat)
    ensures n <= k
    ensures max.None? ==> n == k
    ensures max.Some? && max.value <= 0 ==> n == 0
    ensures max.Some? && 0 <= max.value <= k ==> n == max.value
    ensures max.Some? && max.value >= k ==> n == k
  {
    match max
    case None => k
    case Some(m) => if m <= 0 then 0 else if m < k then m else k
  }

  /** Whole days in a span of seconds, rounded towards minus infinity as
      Python's timedelta.days is. */
  function FloorDays(seconds: int): (d: int)
    ensures d * SecondsPerDay <= seconds < (d + 1) * SecondsPerDay
  {
    seconds / SecondsPerDay
  }
}
