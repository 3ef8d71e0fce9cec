/**
 * The fixed-window rate limiter: each source address has a request count
 * and the start of its current window. Time is an explicit `now`, in
 * nanoseconds, in place of the monotonic clock.
 */
module RateLimiting {
  import opened Addresses

  const NanosPerSecond: nat := 1_000_000_000

  /** A client's `(count, window_start)` pair. */
  datatype Entry = Entry(count: U64, windowStart: nat)

  /** `Instant::duration_since`: the time from `start` to `now`, zero if `start` is later. */
  function Elapsed(start: nat, now: nat): (d: nat)
    ensures start <= now ==> start + d == now
    ensures now < start ==> d == 0
  {
    if start <= now then now - start else 0
  }

  /** The value of a rate limiter: its limit, its window length and its clients' entries. */
  datatype LimiterState = LimiterState(allowedRequests: U64, timeWindow: nat, clients: map<IpAddr, Entry>)
  {
    /** No stored count exceeds the limit. */
    ghost predicate Valid() {
      forall ip :: ip in clients ==> clients[ip].count <= allowedRequests
    }

    /**
     * The entry `allow_request` works on, after it has been created lazily
     * as `(0, now)` and reset to `(0, now)` if strictly more than the window
     * has elapsed since its start.
     */
    function WindowEntry(ip: IpAddr, now: nat): (e: Entry)
      ensures ip !in clients ==> e == Entry(0, now)
      ensures ip in clients && Elapsed(clients[ip].windowStart, now) <= timeWindow ==> e == clients[ip]
      ensures ip in clients && Elapsed(clients[ip].windowStart, now) > timeWindow ==> e == Entry(0, now)
    {
      var e := if ip in clients then clients[ip] else Entry(0, now);
      if Elapsed(e.windowStart, now) > timeWindow then Entry(0, now) else e
    }

    /** `RateLimiter::allow_request`: the new limiter and whether the request is admitted. */
    function AllowRequest(ip: IpAddr, now: nat): (r: (LimiterState, bool))
      ensures r.0.allowedRequests == allowedRequests && r.0.timeWindow == timeWindow
      ensures Valid() ==> r.0.Valid()
      // Only `ip`'s entry is touched; it exists afterwards.
      ensures r.0.clients.Keys == clients.Keys + {ip}
      ensures forall other :: other in clients && other != ip ==> r.0.clients[other] == clients[other]
      // Admitted exactly while the (reset) count is below the limit.
      ensures r.1 <==> WindowEntry(ip, now).count < allowedRequests
      // Admission adds exactly one to the count; rejection leaves the (reset) entry as it is.
      ensures r.0.clients[ip].windowStart == WindowEntry(ip, now).windowStart
      ensures r.0.clients[ip].count == WindowEntry(ip, now).count + (if r.1 then 1 else 0)
    {
      var e := WindowEntry(ip, now);
      if e.count < allowedRequests then
        (this.(clients := clients[ip := e.(count := e.count + 1)]), true)
      else
        (this.(clients := clients[ip := e]), false)
    }
  }

  /** `RateLimiter::new`: no clients yet; the window is given in whole seconds. */
  function Fresh(allowedRequests: U64, timeWindowSeconds: U64): (s: LimiterState)
    ensures s.Valid() && s.clients == map[]
    ensures s.allowedRequests == allowedRequests
    ensures s.timeWindow == timeWindowSeconds * NanosPerSecond
  {
    LimiterState(allowedRequests, timeWindowSeconds * NanosPerSecond, map[])
  }

  /** The first request from an unseen address starts a window at `now` and is admitted iff the limit is positive. */
  lemma FirstRequest(s: LimiterState, ip: IpAddr, now: nat)
    requires ip !in s.clients
    ensures var (t, ok) := s.AllowRequest(ip, now);
            && (ok <==> s.allowedRequests > 0)
            && t.clients[ip] == Entry(if ok then 1 else 0, now)
  {
  }

  /** At exactly `timeWindow` elapsed the window is not reset: the old count still applies. */
  lemma NoResetAtBoundary(s: LimiterState, ip: IpAddr, now: nat)
    requires ip in s.clients && now == s.clients[ip].windowStart + s.timeWindow
    ensures s.WindowEntry(ip, now) == s.clients[ip]
    ensures s.AllowRequest(ip, now).1 <==> s.clients[ip].count < s.allowedRequests
  {
  }

  /** Once strictly more than the window has elapsed, the count restarts: admitted iff the limit is positive, with count 1. */
  lemma ResetAfterWindow(s: LimiterState, ip: IpAddr, now: nat)
    requires ip in s.clients && now > s.clients[ip].windowStart + s.timeWindow
    ensures var (t, ok) := s.AllowRequest(ip, now);
            && (ok <==> s.allowedRequests > 0)
            && t.clients[ip] == Entry(if ok then 1 else 0, now)
  {
  }

  /**
   * The admissions among a run of requests from one address at the given
   * times: the final limiter and how many were admitted.
   */
  function Replay(s: LimiterState, ip: IpAddr, times: seq<nat>): (r: (LimiterState, nat))
    ensures s.Valid() ==> r.0.Valid()
    decreases |times|
  {
    if times == [] then (s, 0)
    else
      var (s', ok) := s.AllowRequest(ip, times[0]);
      var (s'', n) := Replay(s', ip, times[1..]);
      (s'', n + if ok then 1 else 0)
  }

  /**
   * Within one window no more than `allowedRequests` requests from an
   * address are admitted: each admission adds one to the stored count, which
   * never passes the limit, and the window start stays put.
   */
  lemma {:induction false} AtMostLimitPerWindow(s: LimiterState, ip: IpAddr, times: seq<nat>)
    requires s.Valid() && ip in s.clients
    requires forall k :: 0 <= k < |times| ==>
               s.clients[ip].windowStart <= times[k] <= s.clients[ip].windowStart + s.timeWindow
    ensures var (t, n) := Replay(s, ip, times);
            && s.clients[ip].count + n <= s.allowedRequests
            && ip in t.clients
            && t.clients[ip] == Entry(s.clients[ip].count + n, s.clients[ip].windowStart)
    decreases |times|
  {
    if times != [] {
      var (s', ok) := s.AllowRequest(ip, times[0]);
      assert s.WindowEntry(ip, times[0]) == s.clients[ip];
      assert s'.clients[ip].windowStart == s.clients[ip].windowStart;
      AtMostLimitPerWindow(s', ip, times[1..]);
    }
  }

  /**
   * With a limit of 3 and a 60-second window: three requests inside the
   * window are admitted, the fourth is rejected, and a request after the
   * window has run out is admitted again with the count restarted at 1.
   */
  lemma ThreeThenRejectThenReset(ip: IpAddr, t0: nat, t1: nat, t2: nat, t3: nat, t4: nat)
    requires t0 <= t1 <= t2 <= t3 <= t0 + 60 * NanosPerSecond < t4
    ensures var s0 := Fresh(3, 60);
            var (s1, ok1) := s0.AllowRequest(ip, t0);
            var (s2, ok2) := s1.AllowRequest(ip, t1);
            var (s3, ok3) := s2.AllowRequest(ip, t2);
            var (s4, ok4) := s3.AllowRequest(ip, t3);
            var (s5, ok5) := s4.AllowRequest(ip, t4);
            && ok1 && ok2 && ok3 && !ok4 && ok5
            && s5.clients[ip] == Entry(1, t4)
  {
  }

  /**
   * The rate limiter as the source keeps it: the limit and window are fixed
   * at construction, the clients' map is updated in place.
   */
  class RateLimiter {
    const allowedRequests: U64
    const timeWindow: nat
    var clients: map<IpAddr, Entry>

    function State(): LimiterState
      reads this
    {
      LimiterState(allowedRequests, timeWindow, clients)
    }

    ghost predicate Valid()
      reads this
    {
      State().Valid()
    }

    constructor (allowedRequests: U64, timeWindowSeconds: U64)
      ensures Valid() && State() == Fresh(allowedRequests, timeWindowSeconds)
    {
      this.allowedRequests := allowedRequests;
      this.timeWindow := timeWindowSeconds * NanosPerSecond;
      clients := map[];
    }

    /** Looks up or creates the entry, resets it if the window has run out, then admits and counts, or rejects. */
    method AllowRequest(ip: IpAddr, now: nat) returns (allowed: bool)
      requires Valid()
      modifies this
      ensures Valid()
      ensures (State(), allowed) == old(State()).AllowRequest(ip, now)
    {
      var entry := if ip in clients then clients[ip] else Entry(0, now);
      if Elapsed(entry.windowStart, now) > timeWindow {
        entry := entry.(count := 0);
        entry := entry.(windowStart := now);
      }
      if entry.count < allowedRequests {
        entry := entry.(count := entry.count + 1);
        allowed := true;
      } else {
        allowed := false;
      }
      clients := clients[ip := entry];
    }
  }
}
