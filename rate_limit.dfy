/** `rateLimit(time, max)`: a fixed-window limiter keyed by client address. Each key
    has an entry `{hits, reset}`; a call with no entry, or at or after `reset`,
    opens a new window of `time` milliseconds; every call counts one hit; the
    `RateLimit` and `RateLimit-Policy` headers report the remaining requests and the
    window, and a call beyond `max` hits is refused with 429 and `Retry-After`. */
module RateLimit {
  import opened Wrappers
  import Text
  import Http

  /** The per-key counter: hits in the current window and the window's end (ms). */
  datatype Entry = Entry(hits: int, reset: int)

  /** `Math.ceil(a / b)` for a positive divisor. */
  function CeilDiv(a: int, b: int): (q: int)
    requires b > 0
    ensures b * (q - 1) < a <= b * q
  {
    -((-a) / b)
  }

  const TooMany: Http.RouteError := Http.RouteError(429, "rate-limit")

  /** The effect of one call. */
  datatype LimitResult = LimitResult(requests: map<string, Entry>, headers: map<string, Http.HeaderValue>, outcome: Http.Outcome)

  /** Does a call at `now` open a new window for `key`? */
  predicate OpensWindow(requests: map<string, Entry>, key: string, now: int)
  {
    key !in requests || now >= requests[key].reset
  }

  function RateLimitHeader(remaining: int, secondsLeft: int): string
  {
    "\"default\";r=" + Text.IntToString(remaining) + ";t=" + Text.IntToString(secondsLeft)
  }

  function PolicyHeader(max: int, windowSeconds: int): string
  {
    "\"default\";q=" + Text.IntToString(max) + ";w=" + Text.IntToString(windowSeconds)
  }

  /** The caller's entry after one call: a fresh window when `OpensWindow`, then one
      more hit. */
  function Advance(time: int, requests: map<string, Entry>, key: string, now: int): Entry
  {
    var request := if OpensWindow(requests, key, now) then Entry(0, now + time) else requests[key];
    request.(hits := request.hits + 1)
  }

  /** The two headers every call sets, for the caller's new entry `e`. */
  function LimitHeaders(time: int, max: int, e: Entry, now: int, headers: map<string, Http.HeaderValue>): map<string, Http.HeaderValue>
  {
    var sLeft := CeilDiv(e.reset - now, 1000);
    var rLeft := if max - e.hits > 0 then max - e.hits else 0;
    var sTime := CeilDiv(time, 1000);
    headers["RateLimit" := Http.Text(RateLimitHeader(rLeft, sLeft))]["RateLimit-Policy" := Http.Text(PolicyHeader(max, sTime))]
  }

  /** One call of the middleware for client `key` at time `now`. */
  function HandleSpec(time: int, max: int, requests: map<string, Entry>, key: string, now: int,
                      headers: map<string, Http.HeaderValue>): LimitResult
  {
    var e := Advance(time, requests, key, now);
    var h := LimitHeaders(time, max, e, now, headers);
    if e.hits > max then
      LimitResult(requests[key := e], h["Retry-After" := Http.Text(Text.IntToString(CeilDiv(e.reset - now, 1000)))], Http.Reject(TooMany))
    else LimitResult(requests[key := e], h, Http.Next)
  }

  /** What one call does: only `key`'s entry changes; a new window starts with one
      hit and ends at `now + time`, otherwise the hit count grows by one within the
      same window. The headers carry the remaining count, never negative, the seconds
      left and the policy, and the call is refused, with `Retry-After`, exactly when
      the hits exceed `max`. */
  lemma HandleEffects(time: int, max: int, requests: map<string, Entry>, key: string, now: int,
                      headers: map<string, Http.HeaderValue>)
    ensures var l := HandleSpec(time, max, requests, key, now, headers);
      && key in l.requests && l.requests == requests[key := l.requests[key]]
      && (OpensWindow(requests, key, now) ==> l.requests[key] == Entry(1, now + time))
      && (!OpensWindow(requests, key, now) ==> l.requests[key] == requests[key].(hits := requests[key].hits + 1))
    ensures var l := HandleSpec(time, max, requests, key, now, headers);
      var e := l.requests[key];
      var secondsLeft := CeilDiv(e.reset - now, 1000);
      && l.outcome == (if e.hits > max then Http.Reject(TooMany) else Http.Next)
      && Http.Lookup(l.headers, "RateLimit") == Some(Http.Text(RateLimitHeader(if max - e.hits > 0 then max - e.hits else 0, secondsLeft)))
      && Http.Lookup(l.headers, "RateLimit-Policy") == Some(Http.Text(PolicyHeader(max, CeilDiv(time, 1000))))
      && (e.hits > max ==> Http.Lookup(l.headers, "Retry-After") == Some(Http.Text(Text.IntToString(secondsLeft))))
      && (e.hits <= max ==> Http.Lookup(l.headers, "Retry-After") == Http.Lookup(headers, "Retry-After"))
  {
    var e := Advance(time, requests, key, now);
    HandleRequests(time, max, requests, key, now, headers);
    LimitHeadersLookup(time, max, e, now, headers);
  }

  /** One call replaces the caller's entry by `Advance`, and nothing else. */
  lemma HandleRequests(time: int, max: int, requests: map<string, Entry>, key: string, now: int,
                       headers: map<string, Http.HeaderValue>)
    ensures HandleSpec(time, max, requests, key, now, headers).requests == requests[key := Advance(time, requests, key, now)]
  {
  }

  /** The headers one call reads back: its two limit headers, and `Retry-After` as it
      was. */
  lemma LimitHeadersLookup(time: int, max: int, e: Entry, now: int, headers: map<string, Http.HeaderValue>)
    ensures var h := LimitHeaders(time, max, e, now, headers);
      && Http.Lookup(h, "RateLimit") == Some(Http.Text(RateLimitHeader(if max - e.hits > 0 then max - e.hits else 0, CeilDiv(e.reset - now, 1000))))
      && Http.Lookup(h, "RateLimit-Policy") == Some(Http.Text(PolicyHeader(max, CeilDiv(time, 1000))))
      && Http.Lookup(h, "Retry-After") == Http.Lookup(headers, "Retry-After")
  {
    assert "Retry-After"[1] != "RateLimit"[1];
    assert "Retry-After"[1] != "RateLimit-Policy"[1];
    assert "RateLimit"[..] != "RateLimit-Policy"[..] by { assert |"RateLimit"| != |"RateLimit-Policy"|; }
  }

  /** The table after a series of calls from one client at the times `nows`. */
  function Calls(time: int, max: int, requests: map<string, Entry>, key: string, nows: seq<int>): map<string, Entry>
  {
    if nows == [] then requests
    else HandleSpec(time, max, Calls(time, max, requests, key, nows[..|nows| - 1]), key, nows[|nows| - 1], map[]).requests
  }

  /** Whether the `i`-th of those calls was let through. */
  predicate Passed(time: int, max: int, requests: map<string, Entry>, key: string, nows: seq<int>, i: nat)
    requires i < |nows|
  {
    HandleSpec(time, max, Calls(time, max, requests, key, nows[..i]), key, nows[i], map[]).outcome.Next?
  }

  /** Within one window (the first call opens it, every later call comes before it
      ends), the entry counts exactly the calls made, and the window keeps the end
      the first call gave it. */
  lemma {:induction false} WindowHits(time: int, max: int, requests: map<string, Entry>, key: string, nows: seq<int>)
    requires |nows| >= 1 && OpensWindow(requests, key, nows[0])
    requires forall i :: 1 <= i < |nows| ==> nows[i] < nows[0] + time
    ensures var r := Calls(time, max, requests, key, nows);
      key in r && r[key] == Entry(|nows|, nows[0] + time)
  {
    var n := |nows|;
    var prefix := nows[..n - 1];
    var before := Calls(time, max, requests, key, prefix);
    assert Calls(time, max, requests, key, nows) == HandleSpec(time, max, before, key, nows[n - 1], map[]).requests;
    HandleRequests(time, max, before, key, nows[n - 1], map[]);
    if n > 1 {
      assert prefix[0] == nows[0];
      WindowHits(time, max, requests, key, prefix);
      assert !OpensWindow(before, key, nows[n - 1]);
    } else {
      assert prefix == [];
    }
  }

  /** Exactly `max` calls per window pass: within one window the `i`-th call (from
      0) is let through if and only if `i < max`. */
  lemma WindowPassesFirstMax(time: int, max: int, requests: map<string, Entry>, key: string, nows: seq<int>, i: nat)
    requires i < |nows| && OpensWindow(requests, key, nows[0])
    requires forall k :: 1 <= k < |nows| ==> nows[k] < nows[0] + time
    ensures Passed(time, max, requests, key, nows, i) <==> i < max
  {
    var upto := nows[..i + 1];
    assert upto[..i] == nows[..i] && upto[i] == nows[i];
    WindowHits(time, max, requests, key, upto);
  }

  /** A call at or after the window's end starts over: it passes whenever `max` is
      positive, however many calls the old window refused. */
  lemma NewWindowPasses(time: int, max: int, requests: map<string, Entry>, key: string, now: int, headers: map<string, Http.HeaderValue>)
    requires key in requests && now >= requests[key].reset && max >= 1
    ensures HandleSpec(time, max, requests, key, now, headers).outcome == Http.Next
  {
  }

  /** The limiter's state: the `requests` table its closure holds. */
  class RateLimiter {
    const time: int
    const max: int
    var requests: map<string, Entry>

    constructor (time: int, max: int)
      ensures this.time == time && this.max == max && requests == map[]
    {
      this.time := time;
      this.max := max;
      requests := map[];
    }

    /** The caller's entry after this call: a new window when there is none or the
        old one has ended, then one more hit. */
    method Hit(key: string, now: int) returns (request: Entry)
      modifies this`requests
      ensures request == Advance(time, old(requests), key, now)
      ensures requests == old(requests)[key := request]
    {
      if key !in requests || now >= requests[key].reset {
        request := Entry(0, now + time);
        requests := requests[key := request];
      } else {
        request := requests[key];
      }
      request := request.(hits := request.hits + 1);
      requests := requests[key := request];
    }

    /** The middleware itself, for a request from `req.ip` at time `now`. */
    method Handle(req: Http.Request, res: Http.Response, now: int) returns (outcome: Http.Outcome)
      modifies this`requests, res`headers
      ensures LimitResult(requests, res.headers, outcome) == HandleSpec(time, max, old(requests), req.ip, now, old(res.headers))
    {
      var key := req.ip;
      var request := Hit(key, now);
      var sLeft := CeilDiv(request.reset - now, 1000);
      var rLeft := if max - request.hits > 0 then max - request.hits else 0;
      var sTime := CeilDiv(time, 1000);
      res.SetHeader("RateLimit", Http.Text(RateLimitHeader(rLeft, sLeft)));
      res.SetHeader("RateLimit-Policy", Http.Text(PolicyHeader(max, sTime)));
      if request.hits > max {
        res.SetHeader("Retry-After", Http.Text(Text.IntToString(sLeft)));
        return Http.Reject(Http.RouteError(429, "rate-limit"));
      }
      outcome := Http.Next;
    }
  }
}
