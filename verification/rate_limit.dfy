/** The fallback rate limiter of server/middleware/rate-limit.ts: a fixed one-minute window
    per client, 20 requests per window, applied to `/api/` routes only.

    The limiter is the module-level `Map` from client id to window; here it is a value that
    each request takes and returns. `Date.now()` is the `now` parameter, and the environment
    test (production with edge rate limiting on) is the `edgeLimiting` flag. */
module RateLimit {
  import opened Results
  import opened JsText
  import opened JsNumber

  const WindowMillis := 60 * 1000
  const MaxRequests := 20

  /** The request count of one client and the instant its window ends. */
  datatype Window = Window(count: nat, resetTime: int)

  type Limiter = map<string, Window>

  /** The parts of a request the middleware reads: the URL, the X-Forwarded-For header and
      the socket's remote address, each possibly absent. */
  datatype Request = Request(url: Option<string>, forwardedFor: Option<string>, remoteAddress: Option<string>)

  /** The routes the limiter applies to; a request without a URL is not one of them. */
  predicate IsApiRoute(req: Request) {
    req.url.Some? && StartsWith(req.url.value, "/api/")
  }

  /** A header value JavaScript reads as true: present and not "". */
  predicate Truthy(v: Option<string>) {
    v.Some? && v.value != ""
  }

  /** The client id: the first entry of a non-empty X-Forwarded-For, trimmed; otherwise a
      non-empty remote address; otherwise "unknown". An id taken from the header holds no
      comma and neither begins nor ends with whitespace. */
  function ClientId(req: Request): (ip: string)
    ensures Truthy(req.forwardedFor) ==> ip == Trim(Split(req.forwardedFor.value, ',')[0])
    ensures Truthy(req.forwardedFor) ==>
      && ',' !in ip
      && (ip == [] || (!IsWhitespace(ip[0]) && !IsWhitespace(ip[|ip| - 1])))
    ensures !Truthy(req.forwardedFor) && Truthy(req.remoteAddress) ==> ip == req.remoteAddress.value
    ensures !Truthy(req.forwardedFor) && !Truthy(req.remoteAddress) ==> ip == "unknown"
  {
    if Truthy(req.forwardedFor) then
      var first := Split(req.forwardedFor.value, ',')[0];
      TrimSlice(first);
      TrimmedEnds(first);
      var ip := Trim(first);
      assert ',' !in ip by {
        forall i | 0 <= i < |ip| ensures ip[i] != ',' {
          assert ip[i] == first[TrimFrom(first) + i];
        }
      }
      ip
    else if Truthy(req.remoteAddress) then req.remoteAddress.value
    else "unknown"
  }

  /** Behind proxies, X-Forwarded-For reads "client, proxy1, proxy2": the id is the first
      hop, stripped of the spaces around it. */
  lemma ForwardedClientIsFirstHop(req: Request, first: string, rest: string)
    requires ',' !in first
    requires req.forwardedFor == Some(first + [','] + rest)
    ensures ClientId(req) == Trim(first)
  {
    SplitFieldThenRest(first, rest, ',');
  }

  /** A header naming a single hop gives that hop, stripped of the spaces around it. */
  lemma ForwardedSingleHop(req: Request, hop: string)
    requires ',' !in hop && hop != ""
    requires req.forwardedFor == Some(hop)
    ensures ClientId(req) == Trim(hop)
  {
    SplitWithoutSeparator(hop, ',');
  }

  /** What the middleware does with a request. */
  datatype Outcome =
    | Skipped                                        // not limited: no headers, no count
    | Allowed(limit: nat, remaining: nat, reset: int)  // X-RateLimit-Limit, -Remaining, -Reset
    | Rejected(resetTime: int)                       // 429 "Too Many Requests"

  /** The window a request is counted in: the stored one, or a fresh one when there is none
      or the stored one has ended. */
  function CurrentWindow(l: Limiter, ip: string, now: int): (w: Window)
    ensures ip in l && now <= l[ip].resetTime ==> w == l[ip]
    ensures !(ip in l && now <= l[ip].resetTime) ==> w == Window(0, now + WindowMillis)
  {
    if ip !in l || now > l[ip].resetTime then Window(0, now + WindowMillis) else l[ip]
  }

  /** The middleware on one request at `now`. The count is raised before it is compared with the limit,
      so a rejected request is counted too. */
  function Handle(l: Limiter, req: Request, now: int, edgeLimiting: bool): (r: (Limiter, Outcome))
    ensures r.1.Skipped? <==> !IsApiRoute(req) || edgeLimiting
    ensures r.1.Skipped? ==> r.0 == l
    ensures !r.1.Skipped? ==>
      var ip := ClientId(req);
      var w := CurrentWindow(l, ip, now);
      && r.0.Keys == l.Keys + {ip}
      && r.0[ip] == Window(w.count + 1, w.resetTime)
      && (forall other :: other in l && other != ip ==> r.0[other] == l[other])
      && (r.1.Rejected? <==> w.count + 1 > MaxRequests)
      && (r.1.Rejected? ==> r.1.resetTime == w.resetTime)
      && (r.1.Allowed? ==>
            && r.1.limit == MaxRequests
            && r.1.remaining + w.count + 1 == MaxRequests
            && (r.1.reset - 1) * 1000 < w.resetTime <= r.1.reset * 1000)
  {
    if !IsApiRoute(req) || edgeLimiting then (l, Skipped)
    else
      var ip := ClientId(req);
      var w := CurrentWindow(l, ip, now);
      var counted := Window(w.count + 1, w.resetTime);
      var l' := l[ip := counted];
      if counted.count > MaxRequests then (l', Rejected(counted.resetTime))
      else (l', Allowed(MaxRequests, MaxRequests - counted.count, CeilDiv(counted.resetTime, 1000)))
  }

  /** The same request repeated at the given instants, in order. */
  function Burst(l: Limiter, req: Request, times: seq<int>): (r: (Limiter, seq<Outcome>))
    ensures |r.1| == |times|
    decreases |times|
  {
    if |times| == 0 then (l, [])
    else
      var (l1, o) := Handle(l, req, times[0], false);
      var (l2, os) := Burst(l1, req, times[1..]);
      (l2, [o] + os)
  }

  /** Within one window the count grows by one per request, and the request that takes the
      count past 20 and every later one in the window are rejected. */
  lemma {:induction false} BurstWithinWindow(l: Limiter, req: Request, times: seq<int>)
    requires IsApiRoute(req) && ClientId(req) in l
    requires forall k :: 0 <= k < |times| ==> times[k] <= l[ClientId(req)].resetTime
    ensures var ip, (l', os) := ClientId(req), Burst(l, req, times);
      && ip in l'
      && l'[ip] == Window(l[ip].count + |times|, l[ip].resetTime)
      && forall k :: 0 <= k < |times| ==>
           && !os[k].Skipped?
           && (os[k].Rejected? <==> l[ip].count + k + 1 > MaxRequests)
    decreases |times|
  {
    if |times| > 0 {
      var ip := ClientId(req);
      var (l1, o) := Handle(l, req, times[0], false);
      assert l1[ip] == Window(l[ip].count + 1, l[ip].resetTime);
      BurstWithinWindow(l1, req, times[1..]);
      var os := Burst(l, req, times).1;
      assert os == [o] + Burst(l1, req, times[1..]).1;
      forall k | 0 <= k < |times|
        ensures !os[k].Skipped? && (os[k].Rejected? <==> l[ip].count + k + 1 > MaxRequests)
      {
        if k > 0 {
          assert times[1..][k - 1] == times[k];
        }
      }
    }
  }

  /** A client without a current window gets 20 requests, and no more, in the minute that
      starts with its first request. */
  lemma TwentyPerWindow(l: Limiter, req: Request, start: int, times: seq<int>)
    requires IsApiRoute(req)
    requires ClientId(req) !in l || start > l[ClientId(req)].resetTime
    requires forall k :: 0 <= k < |times| ==> times[k] <= start + WindowMillis
    ensures var os := Burst(l, req, [start] + times).1;
      forall k :: 0 <= k < |os| ==> (os[k].Allowed? <==> k < MaxRequests)
  {
    var ip := ClientId(req);
    var (l1, o) := Handle(l, req, start, false);
    assert l1[ip] == Window(1, start + WindowMillis);
    BurstWithinWindow(l1, req, times);
    assert ([start] + times)[1..] == times;
    var os := Burst(l, req, [start] + times).1;
    var rest := Burst(l1, req, times).1;
    assert os == [o] + rest;
    forall k | 0 <= k < |os| ensures os[k].Allowed? <==> k < MaxRequests {
      if k > 0 {
        assert os[k] == rest[k - 1];
      }
    }
  }

  /** Once the window has ended, the next request opens a new one and is allowed, whatever
      the count was. */
  lemma NewWindowAfterReset(l: Limiter, req: Request, now: int)
    requires IsApiRoute(req)
    requires ClientId(req) in l && now > l[ClientId(req)].resetTime
    ensures Handle(l, req, now, false).1 == Allowed(MaxRequests, MaxRequests - 1, CeilDiv(now + WindowMillis, 1000))
  {
  }

  /** The periodic purge: drop every window that has ended. */
  function Purge(l: Limiter, now: int): (l': Limiter)
    ensures forall ip :: ip in l' <==> ip in l && now <= l[ip].resetTime
    ensures forall ip :: ip in l' ==> l'[ip] == l[ip]
  {
    map ip | ip in l && !(now > l[ip].resetTime) :: l[ip]
  }

  /** The purge is invisible to clients: a request handled after a purge gets the same
      answer as without it. */
  lemma PurgeInvisible(l: Limiter, req: Request, purgedAt: int, now: int, edgeLimiting: bool)
    requires purgedAt <= now
    ensures Handle(Purge(l, purgedAt), req, now, edgeLimiting).1 == Handle(l, req, now, edgeLimiting).1
  {
    if IsApiRoute(req) && !edgeLimiting {
      var ip := ClientId(req);
      assert CurrentWindow(Purge(l, purgedAt), ip, now) == CurrentWindow(l, ip, now);
    }
  }
}
