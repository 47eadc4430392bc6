/** The server hook's per-client rate limiter: at most `RateLimit`
    requests per client in a window of `WindowMs` milliseconds opened by
    the client's first request, and a sweep of expired windows once more
    than `MaxTracked` clients are tracked. */
module RateLimit {
  import opened Types
  import opened Strings
  import opened Numbers

  const RateLimit: int := 30
  const WindowMs: int := 60000
  const MaxTracked: int := 10000

  /** A client's window: requests let through so far, and the time (in
      milliseconds) at which the window closes. */
  datatype Entry = Entry(count: int, resetAt: int)

  /** A request is either refused with status 429 and a Retry-After delay
      in seconds, or passed on to the application. */
  datatype Outcome = TooManyRequests(retryAfter: int) | Forwarded

  /** A request as the limiter sees it: the client key and the clock. */
  datatype Request = Request(ip: string, now: int)

  /** The client key: the `cf-connecting-ip` header, else the first
      comma-separated item of `x-forwarded-for`, else "unknown"; an empty
      value counts as absent. */
  function ClientKey(cfConnectingIp: Option<string>, forwardedFor: Option<string>): (r: string)
    ensures r != ""
    ensures cfConnectingIp.Some? && cfConnectingIp.value != "" ==> r == cfConnectingIp.value
    ensures r != cfConnectingIp.GetOr("") ==> ',' !in r
    ensures cfConnectingIp.GetOr("") == "" && forwardedFor.None? ==> r == "unknown"
  {
    if cfConnectingIp.Some? && cfConnectingIp.value != "" then cfConnectingIp.value
    else if forwardedFor.Some? && Split(forwardedFor.value, ',')[0] != "" then Split(forwardedFor.value, ',')[0]
    else "unknown"
  }

  /** Without `cf-connecting-ip`, a single forwarded address is the key. */
  lemma {:induction false} SingleForwardedAddress(client: string)
    requires client != "" && ',' !in client
    ensures ClientKey(None, Some(client)) == client
    ensures ClientKey(Some(""), Some(client)) == client
  {
    SplitNoSeparator(client, ',');
  }

  /** An empty `x-forwarded-for` counts as absent. */
  lemma {:induction false} EmptyForwardedFor(cfConnectingIp: Option<string>)
    requires cfConnectingIp.GetOr("") == ""
    ensures ClientKey(cfConnectingIp, Some("")) == "unknown"
  {
    SplitNoSeparator("", ',');
  }

  /** Behind proxies, the client is the first address of the chain. */
  lemma {:induction false} FirstForwardedAddress(client: string, proxies: string)
    requires client != "" && ',' !in client
    ensures ClientKey(None, Some(client + "," + proxies)) == client
    ensures ClientKey(Some(""), Some(client + "," + proxies)) == client
  {
    assert client + "," + proxies == client + [','] + proxies;
    SplitAround(client, proxies, ',');
    SplitNoSeparator(client, ',');
  }

  /** The client has a window still open at `now`. */
  predicate Live(counts: map<string, Entry>, ip: string, now: int)
  {
    ip in counts && counts[ip].resetAt > now
  }

  /** Every tracked window has let through between 1 and `RateLimit`
      requests. */
  ghost predicate CountsBounded(counts: map<string, Entry>)
  {
    forall ip | ip in counts :: 1 <= counts[ip].count <= RateLimit
  }

  /** The windows still open or closing exactly at `now`. */
  function Unexpired(counts: map<string, Entry>, now: int): (r: map<string, Entry>)
    ensures r.Keys <= counts.Keys
    ensures forall ip | ip in counts :: ip in r <==> counts[ip].resetAt >= now
    ensures forall ip | ip in r :: r[ip] == counts[ip]
  {
    map ip | ip in counts && counts[ip].resetAt >= now :: counts[ip]
  }

  /** One request, on values: refused, leaving everything as it was, when
      the client's open window is full; otherwise counted in its open
      window or in a fresh one, followed by the sweep of expired windows
      when more than `MaxTracked` clients are tracked. */
  function Step(counts: map<string, Entry>, req: Request): (r: (map<string, Entry>, Outcome))
    ensures r.1.TooManyRequests? <==> Live(counts, req.ip, req.now) && counts[req.ip].count >= RateLimit
    ensures r.1.TooManyRequests? ==> r.0 == counts && r.1.retryAfter >= 1
    ensures r.1.TooManyRequests? ==>
      (r.1.retryAfter - 1) * 1000 < counts[req.ip].resetAt - req.now <= r.1.retryAfter * 1000
  {
    var ip, now := req.ip, req.now;
    if Live(counts, ip, now) && counts[ip].count >= RateLimit then
      (counts, TooManyRequests(CeilDiv(counts[ip].resetAt - now, 1000)))
    else
      var counted := if Live(counts, ip, now)
        then counts[ip := Entry(counts[ip].count + 1, counts[ip].resetAt)]
        else counts[ip := Entry(1, now + WindowMs)];
      (if |counted| > MaxTracked then Unexpired(counted, now) else counted, Forwarded)
  }

  /** A passed request is counted in the client's window, which the sweep
      never removes: one more in an open window, else a fresh window of
      one closing `WindowMs` from now. */
  lemma {:induction false} StepOwnEntry(counts: map<string, Entry>, req: Request)
    requires Step(counts, req).1.Forwarded?
    ensures req.ip in Step(counts, req).0
    ensures Live(counts, req.ip, req.now) ==>
      Step(counts, req).0[req.ip] == Entry(counts[req.ip].count + 1, counts[req.ip].resetAt)
    ensures !Live(counts, req.ip, req.now) ==>
      Step(counts, req).0[req.ip] == Entry(1, req.now + WindowMs)
  {
  }

  /** Another client's window is dropped only by the sweep, only when more
      than `MaxTracked` clients are tracked and only when it closed before
      `now`; otherwise it is kept as it was. */
  lemma {:induction false} StepOtherEntry(counts: map<string, Entry>, req: Request, other: string)
    requires other != req.ip && other in counts
    ensures other in Step(counts, req).0 ==> Step(counts, req).0[other] == counts[other]
    ensures other !in Step(counts, req).0 <==>
      Step(counts, req).1.Forwarded? && counts[other].resetAt < req.now &&
      |counts[req.ip := Entry(0, 0)]| > MaxTracked
  {
    var r := Step(counts, req);
    if r.1.Forwarded? {
      var counted := if Live(counts, req.ip, req.now)
        then counts[req.ip := Entry(counts[req.ip].count + 1, counts[req.ip].resetAt)]
        else counts[req.ip := Entry(1, req.now + WindowMs)];
      assert counted.Keys == counts[req.ip := Entry(0, 0)].Keys;
    }
  }

  /** No window ever lets through more than `RateLimit` requests. */
  lemma {:induction false} StepKeepsBounded(counts: map<string, Entry>, req: Request)
    requires CountsBounded(counts)
    ensures CountsBounded(Step(counts, req).0)
  {
  }

  /** How many of `reqs`, run in order from `counts`, come from `ip` and
      are passed. */
  function ForwardedFrom(counts: map<string, Entry>, reqs: seq<Request>, ip: string): nat
    decreases |reqs|
  {
    if reqs == [] then 0
    else
      var s := Step(counts, reqs[0]);
      (if reqs[0].ip == ip && s.1.Forwarded? then 1 else 0) + ForwardedFrom(s.0, reqs[1..], ip)
  }

  /** Before a client's open window closes, whatever other clients do, at
      most the requests its window still has room for are passed. */
  lemma {:induction false} WindowLimit(counts: map<string, Entry>, reqs: seq<Request>, ip: string)
    requires CountsBounded(counts) && ip in counts
    requires forall i :: 0 <= i < |reqs| ==> reqs[i].now < counts[ip].resetAt
    ensures ForwardedFrom(counts, reqs, ip) <= RateLimit - counts[ip].count
    decreases |reqs|
  {
    if reqs != [] {
      var s := Step(counts, reqs[0]);
      StepKeepsBounded(counts, reqs[0]);
      if reqs[0].ip == ip {
        if s.1.Forwarded? {
          StepOwnEntry(counts, reqs[0]);
        }
      } else {
        StepOtherEntry(counts, reqs[0], ip);
      }
      assert ip in s.0 && s.0[ip].resetAt == counts[ip].resetAt;
      WindowLimit(s.0, reqs[1..], ip);
    }
  }

  /** The rate limit: from a client's first request after its window has
      closed, at most `RateLimit` of its requests are passed in the next
      `WindowMs` milliseconds. */
  lemma {:induction false} FreshWindowLimit(counts: map<string, Entry>, reqs: seq<Request>, ip: string)
    requires CountsBounded(counts)
    requires |reqs| >= 1 && reqs[0].ip == ip && !Live(counts, ip, reqs[0].now)
    requires forall i :: 0 < i < |reqs| ==> reqs[i].now < reqs[0].now + WindowMs
    ensures ForwardedFrom(counts, reqs, ip) <= RateLimit
  {
    var s := Step(counts, reqs[0]);
    StepOwnEntry(counts, reqs[0]);
    StepKeepsBounded(counts, reqs[0]);
    WindowLimit(s.0, reqs[1..], ip);
  }

  /** A refused client is told to come back no later than its window
      closes, at most a minute from now when the window was opened no
      later than now. */
  lemma {:induction false} RetryAfterWithinWindow(counts: map<string, Entry>, req: Request)
    requires Step(counts, req).1.TooManyRequests?
    requires counts[req.ip].resetAt <= req.now + WindowMs
    ensures 1 <= Step(counts, req).1.retryAfter <= WindowMs / 1000
  {
  }

  /** The limiter's state: the clients tracked by key. */
  class RateLimiter {
    var counts: map<string, Entry>

    ghost predicate Valid()
      reads this
    {
      CountsBounded(counts)
    }

    constructor()
      ensures Valid() && counts == map[]
    {
      counts := map[];
    }

    /** The hook: decide on the request from the client named by the
        headers at time `now`. */
    method Handle(cfConnectingIp: Option<string>, forwardedFor: Option<string>, now: int)
      returns (outcome: Outcome)
      requires Valid()
      modifies this
      ensures Valid()
      ensures (counts, outcome) == Step(old(counts), Request(ClientKey(cfConnectingIp, forwardedFor), now))
    {
      var ip := ClientKey(cfConnectingIp, forwardedFor);
      ghost var before := counts;
      StepKeepsBounded(before, Request(ip, now));
      if ip in counts && counts[ip].resetAt > now {
        var entry := counts[ip];
        if entry.count >= RateLimit {
          return TooManyRequests(CeilDiv(entry.resetAt - now, 1000));
        }
        counts := counts[ip := entry.(count := entry.count + 1)];
      } else {
        counts := counts[ip := Entry(1, now + WindowMs)];
      }
      if |counts| > MaxTracked {
        Sweep(now);
      }
      return Forwarded;
    }

    /** Delete, from a snapshot of the tracked clients, those whose window
        closed before `now`. */
    method Sweep(now: int)
      modifies this
      ensures counts == Unexpired(old(counts), now)
    {
      var entries := counts;
      var pending := entries.Keys;
      while pending != {}
        invariant pending <= entries.Keys
        invariant counts.Keys <= entries.Keys
        invariant forall ip | ip in entries ::
          (ip in counts <==> ip in pending || entries[ip].resetAt >= now)
        invariant forall ip | ip in counts :: counts[ip] == entries[ip]
        decreases pending
      {
        var ip :| ip in pending;
        if entries[ip].resetAt < now {
          counts := map k | k in counts && k != ip :: counts[k];
        }
        pending := pending - {ip};
      }
    }
  }
}
