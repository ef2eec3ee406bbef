/** The fixed-window rate limiter and the client and token readers of the
    request middleware. The limiter is a value: every check returns the new
    table with its verdict; the clock is a parameter. */
module Middleware {
  import opened Wrappers
  import opened Utils
  import opened Text

  /** The window's anchor (the request that opened it) and the requests
      admitted in it. */
  datatype RateLimit = RateLimit(lastRequest: int, requestCount: int)

  datatype Limiter = Limiter(limits: map<string, RateLimit>, maxRequests: int, timeWindow: int)

  /** The constructor's defaults: 100 requests per 60 seconds. */
  function NewLimiter(): (l: Limiter)
    ensures l.limits == map[] && l.maxRequests == 100 && l.timeWindow == 60
  {
    Limiter(map[], 100, 60)
  }

  predicate WindowPassed(l: Limiter, entry: RateLimit, now: int)
  {
    now - entry.lastRequest > l.timeWindow
  }

  /** `checkLimit` for `client` at time `now`: an unseen client and a client
      whose window has passed start a new window and are admitted; within the
      window a client is admitted while fewer than `maxRequests` were. Only
      the count moves within a window, not its anchor. */
  function CheckLimit(l: Limiter, client: string, now: int): (r: (Limiter, bool))
    ensures r.0.maxRequests == l.maxRequests && r.0.timeWindow == l.timeWindow
    ensures r.0.limits.Keys == l.limits.Keys + {client}
    ensures forall c :: c in l.limits && c != client ==> r.0.limits[c] == l.limits[c]
    ensures client !in l.limits || WindowPassed(l, l.limits[client], now) ==>
      r.1 && r.0.limits[client] == RateLimit(now, 1)
    ensures client in l.limits && !WindowPassed(l, l.limits[client], now) ==>
      && r.1 == (l.limits[client].requestCount < l.maxRequests)
      && (r.1 ==> r.0.limits[client] == l.limits[client].(requestCount := l.limits[client].requestCount + 1))
      && (!r.1 ==> r.0 == l)
  {
    if client !in l.limits then
      (l.(limits := l.limits[client := RateLimit(now, 1)]), true)
    else
      var e := l.limits[client];
      if WindowPassed(l, e, now) then
        (l.(limits := l.limits[client := RateLimit(now, 1)]), true)
      else if e.requestCount >= l.maxRequests then
        (l, false)
      else
        (l.(limits := l.limits[client := e.(requestCount := e.requestCount + 1)]), true)
  }

  /** `cleanupExpired` at time `now`: drops exactly the entries whose window
      has passed. */
  function CleanupExpired(l: Limiter, now: int): (r: Limiter)
    ensures r.maxRequests == l.maxRequests && r.timeWindow == l.timeWindow
    ensures forall c :: c in r.limits <==> c in l.limits && !WindowPassed(l, l.limits[c], now)
    ensures forall c :: c in r.limits ==> r.limits[c] == l.limits[c]
  {
    l.(limits := map c | c in l.limits && !WindowPassed(l, l.limits[c], now) :: l.limits[c])
  }

  /** The same client checked at each of `times` in turn: the final table and
      the number of requests admitted. */
  function CheckAll(l: Limiter, client: string, times: seq<int>): (r: (Limiter, nat))
    ensures r.1 <= |times|
    decreases |times|
  {
    if |times| == 0 then (l, 0)
    else
      var (l1, ok) := CheckLimit(l, client, times[0]);
      var (l2, n) := CheckAll(l1, client, times[1..]);
      (l2, n + if ok then 1 else 0)
  }

  /** Within one window — every request time at most `timeWindow` after the
      window's anchor — a client that has used `count` requests is admitted
      exactly `min(|times|, maxRequests - count)` more times, and the anchor
      does not move. With the window opened by one admitted request, that is
      at most `maxRequests` in the window when `maxRequests >= 1`. */
  lemma {:induction false} WindowBound(l: Limiter, client: string, times: seq<int>)
    requires client in l.limits
    requires forall i :: 0 <= i < |times| ==> times[i] - l.limits[client].lastRequest <= l.timeWindow
    ensures var (r, n) := CheckAll(l, client, times);
      var e := l.limits[client];
      && n == Min(|times|, Max(0, l.maxRequests - e.requestCount))
      && client in r.limits && r.limits[client].lastRequest == e.lastRequest
      && r.limits[client].requestCount == e.requestCount + n
    decreases |times|
  {
    if |times| > 0 {
      var (l1, ok) := CheckLimit(l, client, times[0]);
      assert forall i :: 0 <= i < |times[1..]| ==> times[1..][i] == times[i + 1];
      WindowBound(l1, client, times[1..]);
    }
  }

  /** The window a reset opens admits at most `maxRequests` requests in
      all: the one that opened it and the ones after it within the window. */
  lemma FreshWindowBound(l: Limiter, client: string, start: int, times: seq<int>)
    requires client !in l.limits || WindowPassed(l, l.limits[client], start)
    requires forall i :: 0 <= i < |times| ==> times[i] - start <= l.timeWindow
    requires l.maxRequests >= 1
    ensures CheckLimit(l, client, start).1
    ensures 1 + CheckAll(CheckLimit(l, client, start).0, client, times).1 <= l.maxRequests
  {
    WindowBound(CheckLimit(l, client, start).0, client, times);
  }

  function Min(a: int, b: int): int { if a <= b then a else b }

  function Max(a: int, b: int): int { if a >= b then a else b }

  // ------------------------------------------------------------ request identity

  const FORWARDED_FOR: string := "X-Forwarded-For"
  const REAL_IP: string := "X-Real-IP"

  /** `getClientId`: the forwarding header, else the real-address header,
      else "unknown"; header names match in any letter case. */
  function GetClientId(headers: Headers): (id: string)
    ensures Header(headers, FORWARDED_FOR).Some? ==> id == Header(headers, FORWARDED_FOR).value
    ensures Header(headers, FORWARDED_FOR).None? && Header(headers, REAL_IP).Some? ==>
      id == Header(headers, REAL_IP).value
    ensures Header(headers, FORWARDED_FOR).None? && Header(headers, REAL_IP).None? ==> id == "unknown"
  {
    match Header(headers, FORWARDED_FOR)
    case Some(v) => v
    case None =>
      match Header(headers, REAL_IP)
      case Some(v) => v
      case None => "unknown"
  }

  /** `isAuthenticated`: a "Bearer " authorization header is enough; the
      token itself is not verified. */
  function IsAuthenticated(headers: Headers): (ok: bool)
    ensures ok <==> exists token :: ExtractToken(headers) == Success(token)
    ensures ok <==> Header(headers, AUTHORIZATION).Some? && StartsWith(Header(headers, AUTHORIZATION).value, BEARER)
  {
    ExtractToken(headers).Success?
  }
}
