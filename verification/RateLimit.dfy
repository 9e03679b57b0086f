/** The fixed-window rate limiter (server/internal/middleware/ratelimit.go). */
module RateLimit {
  import opened Tables

  /** One key's window; times and durations are nanoseconds. */
  datatype Window = Window(start: int, count: nat)

  datatype Request = Request(key: string, now: int)

  /** A key's window after a request at `now`. */
  function Count(window: int, w: Option<Window>, now: int): Window {
    if w.None? || now - w.value.start >= window then Window(now, 1) else w.value.(count := w.value.count + 1)
  }

  type Windows = map<string, Window>

  function At(ws: Windows, key: string): Option<Window> { if key in ws then Some(ws[key]) else None }

  /** The limiter's map after a trace. */
  function After(window: int, trace: seq<Request>): Windows {
    if trace == [] then map[]
    else
      var ws, r := After(window, trace[..|trace| - 1]), trace[|trace| - 1];
      ws[r.key := Count(window, At(ws, r.key), r.now)]
  }

  /** Whether request i of the trace is let through. */
  predicate Accepts(limit: int, window: int, trace: seq<Request>, i: nat)
    requires i < |trace|
  {
    Count(window, At(After(window, trace[..i]), trace[i].key), trace[i].now).count <= limit
  }

  /** How many requests of `key` in [from, from + window) are let through. */
  function Accepted(limit: int, window: int, trace: seq<Request>, key: string, from: int): nat {
    if trace == [] then 0
    else
      var n := |trace| - 1;
      Accepted(limit, window, trace[..n], key, from)
      + if trace[n].key == key && from <= trace[n].now < from + window && Accepts(limit, window, trace, n) then 1 else 0
  }

  ghost predicate TimeOrdered(trace: seq<Request>) {
    forall i, j :: 0 <= i < j < |trace| ==> trace[i].now <= trace[j].now
  }

  // ------------------------------------------------------------------ the handlers

  /** The state the middleware keeps under its mutex; requests are served one
      at a time. */
  class RateLimiter {
    const limit: int
    const window: int
    var requests: Windows

    constructor (limit: int, window: int)
      ensures this.limit == limit && this.window == window && requests == After(window, [])
    {
      this.limit, this.window, requests := limit, window, map[];
    }

    /** RateLimit, for client address `ip`; false is a 429 answer. */
    method Allow(ip: string, now: int, ghost trace: seq<Request>) returns (ok: bool)
      requires requests == After(window, trace)
      modifies this
      ensures ip in requests && requests == old(requests)[ip := requests[ip]]
      ensures requests[ip] == if ip in old(requests) && now - old(requests)[ip].start < window
                              then Window(old(requests)[ip].start, old(requests)[ip].count + 1) else Window(now, 1)
      ensures ok <==> requests[ip].count <= limit
      ensures requests == After(window, trace + [Request(ip, now)])
      ensures ok <==> Accepts(limit, window, trace + [Request(ip, now)], |trace|)
    {
      assert (trace + [Request(ip, now)])[..|trace|] == trace;
      if ip !in requests || now - requests[ip].start >= window {
        requests := requests[ip := Window(now, 0)];
      }
      requests := requests[ip := requests[ip].(count := requests[ip].count + 1)];
      ok := requests[ip].count <= limit;
    }

    /** TenantRateLimit: requests outside a tenant are let through uncounted. As
        no handler of the repository ever sets the tenant id it reads, as deployed
        that is every request. */
    method AllowTenant(tenant: string, user: string, now: int, ghost trace: seq<Request>)
      returns (ok: bool, ghost trace2: seq<Request>)
      requires requests == After(window, trace)
      modifies this
      ensures requests == After(window, trace2)
      ensures tenant == "" || user == "" ==> ok && trace2 == trace
      ensures tenant != "" && user != "" ==> trace2 == trace + [Request(TenantKey(tenant, user), now)]
                                             && (ok <==> Accepts(limit, window, trace2, |trace|))
    {
      if tenant == "" || user == "" { return true, trace; }
      ok := Allow(TenantKey(tenant, user), now, trace);
      trace2 := trace + [Request(TenantKey(tenant, user), now)];
    }
  }

  function TenantKey(tenant: string, user: string): string { tenant + ":" + user }

  /** Tenant ids hold no colon, so no two tenants or users share a key. */
  lemma {:induction false} TenantKeysDiffer(t1: string, u1: string, t2: string, u2: string)
    requires ':' !in t1 && ':' !in t2 && TenantKey(t1, u1) == TenantKey(t2, u2)
    ensures t1 == t2 && u1 == u2
  {
    var k1, k2 := TenantKey(t1, u1), TenantKey(t2, u2);
    assert forall i :: 0 <= i < |t1| ==> k1[i] == t1[i] && t1[i] in t1;
    assert forall i :: 0 <= i < |t2| ==> k2[i] == t2[i] && t2[i] in t2;
    assert k1[|t1|] == ':' && k2[|t2|] == ':';
    assert t1 == k1[..|t1|] && t2 == k2[..|t2|] && u1 == k1[|t1| + 1..] && u2 == k2[|t2| + 1..];
  }

  /** What one more request adds. */
  lemma Appended(limit: int, window: int, trace: seq<Request>, r: Request, key: string, from: int)
    ensures var w := Count(window, At(After(window, trace), r.key), r.now);
            && After(window, trace + [r]) == After(window, trace)[r.key := w]
            && Accepted(limit, window, trace + [r], key, from) == Accepted(limit, window, trace, key, from)
                 + if r.key == key && from <= r.now < from + window && w.count <= limit then 1 else 0
  {
    assert (trace + [r])[..|trace|] == trace;
  }

  // ------------------------------------------------------------- what is let through

  /** The requests of a key from request o on. */
  function Since(trace: seq<Request>, key: string, o: nat): set<nat> {
    set j: nat | o <= j < |trace| && trace[j].key == key
  }

  /** Request o opened the key's current window: it was the key's first, or came
      when the window before it was over; and every request of the key since then
      came before this window was over. */
  ghost predicate Opened(window: int, trace: seq<Request>, key: string, o: nat) {
    && o < |trace| && trace[o].key == key
    && (var w := At(After(window, trace[..o]), key); w.Some? ==> trace[o].now - w.value.start >= window)
    && forall j :: o < j < |trace| && trace[j].key == key ==> trace[j].now - trace[o].now < window
  }

  lemma {:induction false} WindowIs(window: int, trace: seq<Request>, key: string) returns (o: nat)
    requires key in After(window, trace)
    ensures Opened(window, trace, key, o)
    ensures After(window, trace)[key] == Window(trace[o].now, |Since(trace, key, o)|)
    decreases |trace|
  {
    var n := |trace| - 1;
    var init, r := trace[..n], trace[n];
    if r.key == key && (key !in After(window, init) || r.now - After(window, init)[key].start >= window) {
      o := n;
      assert Since(trace, key, n) == {n};
    } else {
      o := WindowIs(window, init, key);
      StillOpen(window, trace, init, r, key, o);
      SinceGrows(trace, init, r, key, o);
    }
  }

  lemma StillOpen(window: int, trace: seq<Request>, init: seq<Request>, r: Request, key: string, o: nat)
    requires trace == init + [r] && Opened(window, init, key, o)
    requires r.key == key ==> r.now - init[o].now < window
    ensures Opened(window, trace, key, o)
  {
    assert init[..o] == trace[..o];
    assert forall j :: 0 <= j < |init| ==> trace[j] == init[j];
  }

  lemma SinceGrows(trace: seq<Request>, init: seq<Request>, r: Request, key: string, o: nat)
    requires trace == init + [r] && o < |init|
    ensures |Since(trace, key, o)| == |Since(init, key, o)| + if r.key == key then 1 else 0
  {
    assert forall j :: 0 <= j < |init| ==> trace[j] == init[j];
    assert Since(trace, key, o) == Since(init, key, o) + if r.key == key then {|init| as nat} else {};
  }

  /** A request is let through exactly when, with it, its key has made no more
      than `limit` requests since its window was opened. */
  lemma AcceptsIff(limit: int, window: int, trace: seq<Request>, i: nat) returns (o: nat)
    requires i < |trace|
    ensures Opened(window, trace[..i + 1], trace[i].key, o)
    ensures Accepts(limit, window, trace, i) <==> |Since(trace[..i + 1], trace[i].key, o)| <= limit
  {
    assert trace[..i + 1][..i] == trace[..i] && trace[..i + 1][i] == trace[i];
    o := WindowIs(window, trace[..i + 1], trace[i].key);
  }

  // --------------------------------------------------------------- keys are apart

  function Only(trace: seq<Request>, key: string): seq<Request> {
    if trace == [] then []
    else Only(trace[..|trace| - 1], key) + if trace[|trace| - 1].key == key then [trace[|trace| - 1]] else []
  }

  lemma {:induction false} WindowIsItsOwn(window: int, trace: seq<Request>, key: string)
    ensures At(After(window, trace), key) == At(After(window, Only(trace, key)), key)
  {
    if trace != [] {
      var init, r := trace[..|trace| - 1], trace[|trace| - 1];
      WindowIsItsOwn(window, init, key);
      if r.key == key {
        Appended(0, window, Only(init, key), r, key, 0);
      } else {
        assert Only(trace, key) == Only(init, key);
      }
    }
  }

  /** Keys do not affect each other: what a key is let through in any interval
      depends on that key's requests alone. */
  lemma {:induction false} KeysAreIndependent(limit: int, window: int, trace: seq<Request>, key: string, from: int)
    ensures Accepted(limit, window, trace, key, from) == Accepted(limit, window, Only(trace, key), key, from)
  {
    if trace != [] {
      var init, r := trace[..|trace| - 1], trace[|trace| - 1];
      KeysAreIndependent(limit, window, init, key, from);
      if r.key == key {
        WindowIsItsOwn(window, init, key);
        Appended(limit, window, Only(init, key), r, key, from);
      } else {
        assert Only(trace, key) == Only(init, key);
      }
    }
  }

  // -------------------------------------------------------------------- the bound

  function Min(a: int, b: int): int { if a < b then a else b }

  /** What holds of a key's window w when n of its requests in the interval
      have been let through, the last of them no later than `last`. */
  predicate Budget(limit: int, window: int, w: Window, from: int, last: int, n: int) {
    && w.start <= last && w.count > 0
    && (last < from ==> n == 0)
    && (w.start < from ==> n <= Min(w.count, limit) - 1)
    && (from <= w.start < from + window ==> n <= limit - 1 + Min(w.count, limit))
    && n <= 2 * limit - 1
  }

  lemma BudgetStep(limit: int, window: int, w: Window, from: int, last: int, n: int, now: int)
    requires limit > 0 && window > 0 && last <= now && Budget(limit, window, w, from, last, n)
    ensures var w2 := Count(window, Some(w), now);
            Budget(limit, window, w2, from, now, n + if from <= now < from + window && w2.count <= limit then 1 else 0)
  {
  }

  lemma {:induction false} BudgetHolds(limit: int, window: int, trace: seq<Request>, key: string, from: int)
    requires limit > 0 && window > 0 && TimeOrdered(trace)
    ensures At(After(window, trace), key).None? ==> Accepted(limit, window, trace, key, from) == 0
    ensures At(After(window, trace), key).Some? ==>
              Budget(limit, window, After(window, trace)[key], from, trace[|trace| - 1].now,
                     Accepted(limit, window, trace, key, from))
  {
    if trace != [] {
      var init, r := trace[..|trace| - 1], trace[|trace| - 1];
      BudgetHolds(limit, window, init, key, from);
      var ws, n := After(window, init), Accepted(limit, window, init, key, from);
      if key in ws {
        var last := init[|init| - 1].now;
        if r.key == key {
          BudgetStep(limit, window, ws[key], from, last, n, r.now);
        } else {
          assert Budget(limit, window, ws[key], from, r.now, n);
        }
      }
    }
  }

  lemma {:induction false} NothingWithoutLimit(limit: int, window: int, trace: seq<Request>, key: string, from: int)
    requires limit <= 0 || window <= 0
    ensures Accepted(limit, window, trace, key, from) == 0
  {
    if trace != [] {
      NothingWithoutLimit(limit, window, trace[..|trace| - 1], key, from);
      CountsArePositive(window, trace[..|trace| - 1]);
    }
  }

  lemma {:induction false} CountsArePositive(window: int, trace: seq<Request>)
    ensures forall k :: k in After(window, trace) ==> After(window, trace)[k].count > 0
  {
    if trace != [] { CountsArePositive(window, trace[..|trace| - 1]); }
  }

  /** Over any trace in time order, a key is let through at most 2 * limit - 1
      times in any half-open interval of one window: never twice the limit. */
  lemma LimiterBound(limit: int, window: int, trace: seq<Request>, key: string, from: int)
    requires TimeOrdered(trace)
    ensures Accepted(limit, window, trace, key, from) <= if limit > 0 then 2 * limit - 1 else 0
  {
    if limit > 0 && window > 0 {
      BudgetHolds(limit, window, trace, key, from);
    } else {
      NothingWithoutLimit(limit, window, trace, key, from);
    }
  }

  // ------------------------------------------------------------------ it is tight

  function Burst(trace: seq<Request>, r: Request, n: nat): seq<Request> {
    if n == 0 then trace else Burst(trace, r, n - 1) + [r]
  }

  /** One more request of a window that still has room. */
  lemma OneMoreFits(limit: int, window: int, trace: seq<Request>, r: Request, w: Window, from: int)
    requires At(After(window, trace), r.key) == Some(w) && r.now - w.start < window
    requires w.count + 1 <= limit && from <= r.now < from + window
    ensures At(After(window, trace + [r]), r.key) == Some(w.(count := w.count + 1))
    ensures Accepted(limit, window, trace + [r], r.key, from) == Accepted(limit, window, trace, r.key, from) + 1
  {
    Appended(limit, window, trace, r, r.key, from);
  }

  lemma {:induction false} BurstFills(limit: int, window: int, trace: seq<Request>, r: Request, n: nat, w: Window,
                                      from: int)
    requires At(After(window, trace), r.key) == Some(w) && r.now - w.start < window
    requires w.count + n <= limit && from <= r.now < from + window
    ensures var b := Burst(trace, r, n);
            && At(After(window, b), r.key) == Some(w.(count := w.count + n))
            && Accepted(limit, window, b, r.key, from) == Accepted(limit, window, trace, r.key, from) + n
    decreases n
  {
    if n > 0 {
      BurstFills(limit, window, trace, r, n - 1, w, from);
      OneMoreFits(limit, window, Burst(trace, r, n - 1), r, w.(count := w.count + n - 1), from);
    }
  }

  lemma {:induction false} BurstIsOrdered(trace: seq<Request>, r: Request, n: nat)
    requires TimeOrdered(trace) && forall i :: 0 <= i < |trace| ==> trace[i].now <= r.now
    ensures TimeOrdered(Burst(trace, r, n))
    ensures forall i :: 0 <= i < |Burst(trace, r, n)| ==> Burst(trace, r, n)[i].now <= r.now
  {
    if n > 0 { BurstIsOrdered(trace, r, n - 1); }
  }

  /** A request at 0, and all the others its window allows just before it ends. */
  function Rush(key: string, limit: nat, window: int): seq<Request>
    requires limit > 0
  {
    Burst([Request(key, 0)], Request(key, window - 1), limit - 1)
  }

  lemma RushFills(key: string, limit: nat, window: int)
    requires limit > 0 && window > 1
    ensures var b := Rush(key, limit, window);
            && At(After(window, b), key) == Some(Window(0, limit))
            && Accepted(limit, window, b, key, window - 1) == limit - 1
  {
    var first, late := [Request(key, 0)], Request(key, window - 1);
    FirstRequest(limit, window, key, first);
    BurstFills(limit, window, first, late, limit - 1, Window(0, 1), window - 1);
  }

  lemma RushIsOrdered(key: string, limit: nat, window: int)
    requires limit > 0 && window > 1
    ensures var b := Rush(key, limit, window); TimeOrdered(b) && (forall i :: 0 <= i < |b| ==> b[i].now < window)
  {
    BurstIsOrdered([Request(key, 0)], Request(key, window - 1), limit - 1);
  }

  lemma FirstRequest(limit: nat, window: int, key: string, first: seq<Request>)
    requires limit > 0 && window > 1 && first == [Request(key, 0)]
    ensures At(After(window, first), key) == Some(Window(0, 1))
    ensures Accepted(limit, window, first, key, window - 1) == 0
  {
    assert first == [] + first;
    Appended(limit, window, [], first[0], key, window - 1);
  }

  /** The bound is reached, for every limit and every window longer than one
      tick, by a second rush as soon as the next window opens. */
  lemma LimiterBoundIsTight(key: string, limit: nat, window: int)
    requires limit > 0 && window > 1
    ensures var next := Request(key, window);
            var trace := Burst(Rush(key, limit, window) + [next], next, limit - 1);
            TimeOrdered(trace) && Accepted(limit, window, trace, key, window - 1) == 2 * limit - 1
  {
    var b, next := Rush(key, limit, window), Request(key, window);
    RushFills(key, limit, window);
    RushIsOrdered(key, limit, window);
    NextWindow(limit, window, b, next);
    BurstFills(limit, window, b + [next], next, limit - 1, Window(window, 1), window - 1);
    BurstIsOrdered(b + [next], next, limit - 1);
  }

  lemma NextWindow(limit: nat, window: int, b: seq<Request>, next: Request)
    requires limit > 0 && window > 1 && next.now == window
    requires At(After(window, b), next.key) == Some(Window(0, limit))
    ensures At(After(window, b + [next]), next.key) == Some(Window(window, 1))
    ensures Accepted(limit, window, b + [next], next.key, window - 1)
            == Accepted(limit, window, b, next.key, window - 1) + 1
  {
    Appended(limit, window, b, next, next.key, window - 1);
  }
}
