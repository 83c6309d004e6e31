/**
 * The sliding-window rate limiter of the Go service (`RateLimitService`):
 * for each client address, the times of its recent requests. A request is
 * admitted when fewer than `maxReqs` of them lie within the window. The
 * periodic clean-up is one explicit sweep; the clock is the parameter `now`.
 */
module RateLimit {
  import opened Models

  /** The limiter state: the clients' records, the cap and the window length. */
  datatype Limiter = Limiter(clients: map<string, RateLimitInfo>, maxReqs: int, window: int)

  /** A new limiter with no clients. */
  function New(maxReqs: int, window: int): (l: Limiter)
    ensures l.clients == map[] && l.maxReqs == maxReqs && l.window == window
  {
    Limiter(map[], maxReqs, window)
  }

  /** A request time is inside the window while strictly less than a window has passed. */
  predicate InWindow(t: int, now: int, window: int) {
    now - t < window
  }

  /** `a` is `b` with some elements left out: what is kept stays in its order. */
  predicate Subsequence(a: seq<int>, b: seq<int>)
    decreases |b|
  {
    if a == [] then true
    else if b == [] then false
    else (a[0] == b[0] && Subsequence(a[1..], b[1..])) || Subsequence(a, b[1..])
  }

  /**
   * The request times still inside the window, in their order: each
   * in-window time as often as it was recorded, and no other.
   */
  function Prune(reqs: seq<int>, now: int, window: int): (r: seq<int>)
    ensures |r| <= |reqs|
    ensures forall t :: t in r <==> t in reqs && InWindow(t, now, window)
    ensures forall t :: multiset(r)[t] == if InWindow(t, now, window) then multiset(reqs)[t] else 0
    ensures Subsequence(r, reqs)
  {
    if reqs == [] then []
    else
      assert reqs == [reqs[0]] + reqs[1..];
      var rest := Prune(reqs[1..], now, window);
      if InWindow(reqs[0], now, window) then
        assert ([reqs[0]] + rest)[1..] == rest;
        [reqs[0]] + rest
      else rest
  }

  /** Pruning again at the same time changes nothing. */
  lemma {:induction false} PruneIdempotent(reqs: seq<int>, now: int, window: int)
    ensures Prune(Prune(reqs, now, window), now, window) == Prune(reqs, now, window)
  {
    if reqs != [] {
      PruneIdempotent(reqs[1..], now, window);
      if InWindow(reqs[0], now, window) {
        var p := Prune(reqs, now, window);
        assert p == [reqs[0]] + Prune(reqs[1..], now, window);
        assert p[1..] == Prune(reqs[1..], now, window);
      } else {
        assert Prune(reqs, now, window) == Prune(reqs[1..], now, window);
      }
    }
  }

  /** Pruning drops everything when no time is inside the window. */
  lemma {:induction false} PruneNoneInWindow(reqs: seq<int>, now: int, window: int)
    requires forall i :: 0 <= i < |reqs| ==> !InWindow(reqs[i], now, window)
    ensures Prune(reqs, now, window) == []
  {
    if reqs != [] {
      PruneNoneInWindow(reqs[1..], now, window);
    }
  }

  /** Pruning keeps every time that is inside the window. */
  lemma {:induction false} PruneAllInWindow(reqs: seq<int>, now: int, window: int)
    requires forall i :: 0 <= i < |reqs| ==> InWindow(reqs[i], now, window)
    ensures Prune(reqs, now, window) == reqs
  {
    if reqs != [] {
      PruneAllInWindow(reqs[1..], now, window);
    }
  }

  /** The record of a client, or a fresh empty one. */
  function InfoOf(l: Limiter, ip: string): (info: RateLimitInfo)
    ensures ip in l.clients ==> info == l.clients[ip]
    ensures ip !in l.clients ==> info == RateLimitInfo([], ip)
  {
    if ip in l.clients then l.clients[ip] else RateLimitInfo([], ip)
  }

  /**
   * `IsAllowed`: create the client's record if needed, store its pruned
   * request times, refuse when they already number `maxReqs` or more, and
   * otherwise record `now` and admit.
   */
  function IsAllowed(l: Limiter, ip: string, now: int): (r: (bool, Limiter))
    ensures var valid := Prune(InfoOf(l, ip).requests, now, l.window);
      r.0 <==> |valid| < l.maxReqs
    ensures var valid := Prune(InfoOf(l, ip).requests, now, l.window);
      && ip in r.1.clients
      && r.1.clients[ip] == InfoOf(l, ip).(requests := if r.0 then valid + [now] else valid)
    ensures r.1.clients.Keys == l.clients.Keys + {ip}
    ensures forall other :: other in l.clients && other != ip ==> r.1.clients[other] == l.clients[other]
    ensures r.1.maxReqs == l.maxReqs && r.1.window == l.window
  {
    var info := InfoOf(l, ip);
    var valid := Prune(info.requests, now, l.window);
    if |valid| >= l.maxReqs then
      (false, l.(clients := l.clients[ip := info.(requests := valid)]))
    else
      (true, l.(clients := l.clients[ip := info.(requests := valid + [now])]))
  }

  /** `GetRequestCount`: 0 for an unknown client, else the number of its times inside the window. */
  function RequestCount(l: Limiter, ip: string, now: int): (n: nat)
    ensures ip !in l.clients ==> n == 0
    ensures ip in l.clients ==> n == |Prune(l.clients[ip].requests, now, l.window)|
  {
    if ip !in l.clients then 0 else |Prune(l.clients[ip].requests, now, l.window)|
  }

  /** `Reset`: forget one client. */
  function Reset(l: Limiter, ip: string): (r: Limiter)
    ensures r.clients.Keys == l.clients.Keys - {ip}
    ensures forall other :: other in r.clients ==> r.clients[other] == l.clients[other]
    ensures r.maxReqs == l.maxReqs && r.window == l.window
  {
    l.(clients := l.clients - {ip})
  }

  /** `Clear`: forget every client. */
  function Clear(l: Limiter): (r: Limiter)
    ensures r.clients == map[] && r.maxReqs == l.maxReqs && r.window == l.window
  {
    l.(clients := map[])
  }

  /** One pass of `cleanup`: prune every client and drop those left with no requests. */
  function Sweep(l: Limiter, now: int): (r: Limiter)
    ensures forall ip :: ip in r.clients <==> ip in l.clients && Prune(l.clients[ip].requests, now, l.window) != []
    ensures forall ip :: ip in r.clients ==>
      r.clients[ip] == l.clients[ip].(requests := Prune(l.clients[ip].requests, now, l.window))
    ensures r.maxReqs == l.maxReqs && r.window == l.window
  {
    l.(clients := map ip | ip in l.clients && Prune(l.clients[ip].requests, now, l.window) != [] ::
                     l.clients[ip].(requests := Prune(l.clients[ip].requests, now, l.window)))
  }

  // ---- The invariant ----

  /** The most requests a client's record holds: `maxReqs`, or none when that is not positive. */
  function Cap(l: Limiter): nat {
    if l.maxReqs < 0 then 0 else l.maxReqs
  }

  /** No client has more request times on record than the cap. */
  predicate Bounded(l: Limiter) {
    forall ip :: ip in l.clients ==> |l.clients[ip].requests| <= Cap(l)
  }

  /** Every operation keeps the invariant. */
  lemma IsAllowedBounded(l: Limiter, ip: string, now: int)
    requires Bounded(l)
    ensures Bounded(IsAllowed(l, ip, now).1)
  {
  }

  lemma OthersBounded(l: Limiter, ip: string, now: int)
    requires Bounded(l)
    ensures Bounded(Sweep(l, now)) && Bounded(Reset(l, ip)) && Bounded(Clear(l))
  {
  }

  /** Under the invariant, no client ever has more than `maxReqs` requests inside the window. */
  lemma CountBounded(l: Limiter, ip: string, now: int)
    requires Bounded(l)
    ensures RequestCount(l, ip, now) <= Cap(l)
  {
  }

  // ---- Properties over several calls ----

  /** The answers to `n` requests from one client at one instant, and the limiter after them. */
  function Burst(l: Limiter, ip: string, now: int, n: nat): (r: (seq<bool>, Limiter))
    ensures |r.0| == n
    decreases n
  {
    if n == 0 then ([], l)
    else
      var (ok, l') := IsAllowed(l, ip, now);
      var (rest, l'') := Burst(l', ip, now, n - 1);
      ([ok] + rest, l'')
  }

  /** The client holds `k` request times, all equal to `now`. */
  predicate HoldsAt(l: Limiter, ip: string, now: int, k: nat) {
    |InfoOf(l, ip).requests| == k && forall i :: 0 <= i < k ==> InfoOf(l, ip).requests[i] == now
  }

  /**
   * At one instant, with a positive window and `k <= maxReqs` earlier
   * requests at that instant, request `i` of a burst is admitted exactly
   * when `k + i < maxReqs`.
   */
  lemma {:induction false} BurstSpec(l: Limiter, ip: string, now: int, n: nat, k: nat)
    requires l.window > 0 && k <= Cap(l) && HoldsAt(l, ip, now, k)
    ensures forall i :: 0 <= i < n ==> Burst(l, ip, now, n).0[i] == (k + i < l.maxReqs)
    decreases n
  {
    if n > 0 {
      var (ok, l') := IsAllowed(l, ip, now);
      var k' := if ok then k + 1 else k;
      StepHolds(l, ip, now, k);
      BurstSpec(l', ip, now, n - 1, k');
      var r := Burst(l, ip, now, n);
      assert r.0 == [ok] + Burst(l', ip, now, n - 1).0;
      assert ok == (k < l.maxReqs);
      AnswersShift(r.0, Burst(l', ip, now, n - 1).0, n, k, l.maxReqs);
    }
  }

  /** One request at the same instant: admitted exactly below the limit, and the count grows by one when it is. */
  lemma StepHolds(l: Limiter, ip: string, now: int, k: nat)
    requires l.window > 0 && k <= Cap(l) && HoldsAt(l, ip, now, k)
    ensures var (ok, l') := IsAllowed(l, ip, now);
      && ok == (k < l.maxReqs)
      && HoldsAt(l', ip, now, if ok then k + 1 else k)
      && (if ok then k + 1 else k) <= Cap(l') && l'.window == l.window
  {
    PruneAllInWindow(InfoOf(l, ip).requests, now, l.window);
  }

  /** The answers of a burst: the first one, then the answers of the rest from the count it leaves. */
  lemma AnswersShift(r: seq<bool>, rest: seq<bool>, n: nat, k: nat, maxReqs: int)
    requires n > 0 && |rest| == n - 1 && r == [k < maxReqs] + rest
    requires var k' := if k < maxReqs then k + 1 else k;
      forall i :: 0 <= i < n - 1 ==> rest[i] == (k' + i < maxReqs)
    ensures forall i :: 0 <= i < n ==> r[i] == (k + i < maxReqs)
  {
    forall i | 0 <= i < n ensures r[i] == (k + i < maxReqs) {
      if i > 0 {
        assert r[i] == rest[i - 1];
      }
    }
  }

  /** A new client's first `maxReqs` requests at one instant are admitted and the rest refused. */
  lemma FreshBurst(l: Limiter, ip: string, now: int, n: nat)
    requires l.window > 0 && ip !in l.clients
    ensures forall i :: 0 <= i < n ==> Burst(l, ip, now, n).0[i] == (i < l.maxReqs)
  {
    BurstSpec(l, ip, now, n, 0);
  }

  /** Once a whole window has passed since every recorded request, the next one is admitted. */
  lemma AdmittedAfterWindow(l: Limiter, ip: string, now: int)
    requires l.maxReqs >= 1
    requires ip in l.clients ==> forall t :: t in l.clients[ip].requests ==> now - t >= l.window
    ensures IsAllowed(l, ip, now).0
  {
    var reqs := InfoOf(l, ip).requests;
    assert forall i :: 0 <= i < |reqs| ==> reqs[i] in reqs;
    PruneNoneInWindow(reqs, now, l.window);
  }

  /** A refused first request still leaves a record for the client. */
  lemma RefusedClientRecorded(l: Limiter, ip: string, now: int)
    requires ip !in l.clients && l.maxReqs <= 0
    ensures var (ok, l') := IsAllowed(l, ip, now);
      !ok && ip in l'.clients && l'.clients[ip] == RateLimitInfo([], ip)
  {
  }

  /** A sweep changes neither a count nor an admission decision at that instant. */
  lemma SweepUnobservable(l: Limiter, ip: string, now: int)
    ensures RequestCount(Sweep(l, now), ip, now) == RequestCount(l, ip, now)
    ensures IsAllowed(Sweep(l, now), ip, now).0 == IsAllowed(l, ip, now).0
  {
    if ip in l.clients {
      PruneIdempotent(l.clients[ip].requests, now, l.window);
    }
  }
}
