/** The two fixed-window rate limiters: the decorator and the middleware that share one table of
    counters (`app/core/rate_limit.py`), and the separate limiter of the authentication endpoints
    (`app/plugins/advanced_auth/middleware.py`). Clock readings are real numbers of seconds. */
module RateLimit {
  import opened Options
  import opened Text

  /** What is kept per client: the requests counted and the start of the window. */
  datatype Entry = Entry(count: int, start: real)

  type Table = map<string, Entry>

  const WINDOW := 60.0

  // One limiter check

  /** The shared limiter leaves its counter alone when it refuses, the authentication limiter
      counts the refused request as well. */
  datatype Policy = Shared | CountsRefused(window: real)

  function Window(p: Policy): real {
    match p case Shared => WINDOW case CountsRefused(w) => w
  }

  /** One check of one client: admitted or not, and the client's new entry. */
  function Step(p: Policy, e: Option<Entry>, limit: int, now: real): (bool, Entry) {
    match e
    case None => (true, Entry(1, now))
    case Some(Entry(count, start)) =>
      if now - start > Window(p) then (true, Entry(1, now))
      else if count + 1 > limit then (false, Entry(if p.Shared? then count else count + 1, start))
      else (true, Entry(count + 1, start))
  }

  function Lookup(t: Table, client: string): Option<Entry> {
    if client in t then Some(t[client]) else None
  }

  // Requests and runs

  /** A request at a limiter: through the decorator (with the keyword `current_user_id`, if any),
      through the middleware (path and Authorization header), or through the authentication
      limiter, which looks at the host alone. */
  datatype Request =
    | Undecorated(now: real)
    | Decorated(host: string, userId: Option<string>, limit: int, now: real)
    | Dispatched(path: string, excluded: seq<string>, host: string, authorization: Option<string>,
                 limit: int, now: real)
    | AuthDispatched(path: string, host: string, limit: int, now: real)

  const AUTH_ENDPOINTS := ["/auth/login", "/auth/register", "/auth/reset-password"]

  predicate AnyPrefix(prefixes: seq<string>, path: string) {
    exists p | p in prefixes :: p <= path
  }

  predicate ToAuthentication(path: string) {
    "/auth/login" <= path || "/auth/register" <= path || "/auth/reset-password" <= path
  }

  lemma AuthEndpoints(path: string)
    ensures AnyPrefix(AUTH_ENDPOINTS, path) <==> ToAuthentication(path)
  {
    var es := AUTH_ENDPOINTS;
    assert es[0] in es && es[1] in es && es[2] in es;
    if p :| p in es && p <= path {
      assert p == es[0] || p == es[1] || p == es[2];
    }
  }

  function Limit(r: Request): int {
    if r.Undecorated? then 0 else r.limit
  }

  /** The client a request is counted under; a request without a `Request` object, on an excluded
      path or outside the authentication endpoints passes unchecked. */
  function Key(r: Request): Option<string> {
    match r
    case Undecorated(_) => None
    case Decorated(host, userId, _, _) =>
      Some(if userId.Some? then host + ":" + userId.value else host)
    case Dispatched(path, excluded, host, authorization, _, _) =>
      if AnyPrefix(excluded, path) then None
      else if authorization.Some? && "Bearer " <= authorization.value then
        var token := ReplaceAll(authorization.value, "Bearer ", "");
        Some(host + ":" + if |token| > 16 then token[..16] else token)
      else Some(host)
    case AuthDispatched(path, host, _, _) =>
      if AnyPrefix(AUTH_ENDPOINTS, path) then Some(host) else None
  }

  /** A check of `client`: does the request go through, and the table afterwards. */
  function Counted(p: Policy, t: Table, client: string, limit: int, now: real): (bool, Table) {
    var (admitted, e) := Step(p, Lookup(t, client), limit, now);
    (admitted, t[client := e])
  }

  /** Does `r` go through, and the table afterwards. */
  function Serve(p: Policy, t: Table, r: Request): (bool, Table) {
    match Key(r)
    case None => (true, t)
    case Some(client) => Counted(p, t, client, Limit(r), r.now)
  }

  /** The table after the first `n` requests, starting from an empty one. */
  function After(p: Policy, rs: seq<Request>, n: nat): Table
    requires n <= |rs|
  {
    if n == 0 then map[] else Serve(p, After(p, rs, n - 1), rs[n - 1]).1
  }

  /** The decision taken on request `i`. */
  function Decision(p: Policy, rs: seq<Request>, i: nat): bool
    requires i < |rs|
  {
    Serve(p, After(p, rs, i), rs[i]).0
  }

  predicate Monotone(rs: seq<Request>) {
    forall i, j | 0 <= i <= j < |rs| :: rs[i].now <= rs[j].now
  }

  /** How many of the first `n` requests are requests of `client` that the limiter let through at a
      time from `a` to `b`. */
  function Admitted(p: Policy, rs: seq<Request>, client: string, a: real, b: real, n: nat): nat
    requires n <= |rs|
  {
    if n == 0 then 0
    else
      Admitted(p, rs, client, a, b, n - 1)
      + if Key(rs[n - 1]) == Some(client) && a <= rs[n - 1].now <= b && Decision(p, rs, n - 1) then 1 else 0
  }

  // The limiters as written

  class RequestCounts {
    var counts: Table

    constructor ()
      ensures counts == map[]
    {
      counts := map[];
    }

    /** The counter update both shared limiters perform. */
    method Check(client: string, limit: int, now: real) returns (admitted: bool)
      modifies this
      ensures admitted == Step(Shared, old(Lookup(counts, client)), limit, now).0
      ensures counts == old(counts)[client := Step(Shared, old(Lookup(counts, client)), limit, now).1]
    {
      if client in counts {
        var Entry(count, start) := counts[client];
        if now - start > WINDOW {
          counts := counts[client := Entry(1, now)];
        } else {
          count := count + 1;
          if count > limit {
            assert counts == counts[client := counts[client]];
            return false;
          }
          counts := counts[client := Entry(count, start)];
        }
      } else {
        counts := counts[client := Entry(1, now)];
      }
      admitted := true;
    }

    /** The wrapper the decorator puts around an endpoint. */
    method Wrapper(hasRequest: bool, host: string, userId: Option<string>, limit: int, now: real)
      returns (admitted: bool)
      modifies this
      ensures (admitted, counts)
           == Serve(Shared, old(counts),
                    if hasRequest then Decorated(host, userId, limit, now) else Undecorated(now))
    {
      if !hasRequest {
        return true;
      }
      var client := host;
      if userId.Some? {
        client := client + ":" + userId.value;
      }
      admitted := Check(client, limit, now);
    }

    /** The middleware. */
    method Dispatch(path: string, excluded: seq<string>, host: string, authorization: Option<string>,
                    limit: int, now: real) returns (admitted: bool)
      modifies this
      ensures (admitted, counts)
           == Serve(Shared, old(counts), Dispatched(path, excluded, host, authorization, limit, now))
    {
      for i := 0 to |excluded|
        invariant forall k | 0 <= k < i :: !(excluded[k] <= path)
        invariant counts == old(counts)
      {
        if excluded[i] <= path {
          assert excluded[i] in excluded;
          return true;
        }
      }
      var client := host;
      if authorization.Some? && "Bearer " <= authorization.value {
        var token := ReplaceAll(authorization.value, "Bearer ", "");
        client := host + ":" + if |token| > 16 then token[..16] else token;
      }
      admitted := Check(client, limit, now);
    }
  }

  class AuthRateLimit {
    const rateLimit: int
    const window: real
    var ipRequests: Table

    constructor (rateLimit: int, window: real)
      ensures this.rateLimit == rateLimit && this.window == window && ipRequests == map[]
    {
      this.rateLimit, this.window := rateLimit, window;
      ipRequests := map[];
    }

    method Dispatch(path: string, host: string, now: real) returns (admitted: bool)
      modifies this
      ensures (admitted, ipRequests)
           == Serve(CountsRefused(window), old(ipRequests), AuthDispatched(path, host, rateLimit, now))
      ensures (admitted, ipRequests)
           == if "/auth/login" <= path || "/auth/register" <= path || "/auth/reset-password" <= path
              then Counted(CountsRefused(window), old(ipRequests), host, rateLimit, now)
              else (true, old(ipRequests))
    {
      AuthEndpoints(path);
      if !AnyPrefix(AUTH_ENDPOINTS, path) {
        return true;
      }
      if host in ipRequests {
        var data := ipRequests[host];
        if now - data.start > window {
          ipRequests := ipRequests[host := Entry(1, now)];
        } else {
          ipRequests := ipRequests[host := data.(count := data.count + 1)];
          if ipRequests[host].count > rateLimit {
            return false;
          }
        }
      } else {
        ipRequests := ipRequests[host := Entry(1, now)];
      }
      admitted := true;
    }
  }

  // How many get through

  /** No limiter on the client's key allows more than `m` a window. A limit below 1 still lets the
      first request of a window through, so `m` is at least 1. */
  predicate LimitsAtMost(rs: seq<Request>, client: string, m: int) {
    m >= 1 && forall r | r in rs && Key(r) == Some(client) :: Limit(r) <= m
  }

  /** How much of `m` a window has used up; requests counted beyond it were refused. */
  function Used(count: int, m: int): int {
    if count < m then count else m
  }

  /** The windows that admitted anything from `a` on: `k` windows before the current one. If the
      first of them began before `a`, its first admission is not among those counted. */
  ghost predicate Ledger(p: Policy, e: Option<Entry>, admitted: int, a: real, m: int, k: nat, late: int) {
    && e.Some? && 1 <= e.value.count && (late == 0 || late == 1)
    && admitted <= m * k + Used(e.value.count, m) - late
    && e.value.start + Window(p) >= a
    && (k > 0 ==> e.value.start > a + Window(p) * (k - late) as real)
    && (k == 0 && late == 0 ==> e.value.start >= a)
  }

  /** What the table knows about a client. */
  lemma {:induction false} CountBounded(rs: seq<Request>, client: string, m: int, n: nat)
    requires LimitsAtMost(rs, client, m) && n <= |rs|
    ensures var e := Lookup(After(Shared, rs, n), client); e.Some? ==> 1 <= e.value.count <= m
  {
    if n > 0 {
      CountBounded(rs, client, m, n - 1);
      assert rs[n - 1] in rs;
    }
  }

  lemma {:induction false} CountPositive(p: Policy, rs: seq<Request>, client: string, n: nat)
    requires n <= |rs|
    ensures var e := Lookup(After(p, rs, n), client); e.Some? ==> 1 <= e.value.count
  {
    if n > 0 {
      CountPositive(p, rs, client, n - 1);
    }
  }

  lemma {:induction false} StartBeforeNow(p: Policy, rs: seq<Request>, client: string, now: real, n: nat)
    requires n <= |rs| && forall i | 0 <= i < n :: rs[i].now <= now
    ensures var e := Lookup(After(p, rs, n), client); e.Some? ==> e.value.start <= now
  {
    if n > 0 {
      StartBeforeNow(p, rs, client, now, n - 1);
    }
  }

  /** One admission carries the ledger forward. */
  lemma LedgerStep(p: Policy, e: Option<Entry>, limit: int, now: real, admitted: int, a: real, m: int,
                   k: nat, late: int) returns (k': nat, late': int)
    requires limit <= m && m >= 1 && now >= a && admitted >= 0
    requires e.Some? ==> 1 <= e.value.count
    requires admitted > 0 ==> Ledger(p, e, admitted, a, m, k, late)
    requires Window(p) > 0.0 && Step(p, e, limit, now).0
    ensures Ledger(p, Some(Step(p, e, limit, now).1), admitted + 1, a, m, k', late')
  {
    if admitted == 0 {
      k' := 0;
      late' := if Step(p, e, limit, now).1.start < a then 1 else 0;
    } else if now - e.value.start > Window(p) {
      k', late' := k + 1, late;
      assert m * (k + 1) == m * k + m;
      NextWindowLater(Window(p), k - late);
    } else {
      k', late' := k, late;
    }
  }

  /** A refusal keeps the window and uses up nothing that was left. */
  lemma LedgerRefusal(p: Policy, e: Option<Entry>, limit: int, now: real, admitted: int, a: real, m: int,
                      k: nat, late: int)
    requires Ledger(p, e, admitted, a, m, k, late) && !Step(p, e, limit, now).0
    ensures Ledger(p, Some(Step(p, e, limit, now).1), admitted, a, m, k, late)
  {
  }

  lemma NextWindowLater(w: real, n: int)
    ensures w * (n + 1) as real == w * n as real + w
  {
  }

  lemma {:induction false} LedgerHolds(p: Policy, rs: seq<Request>, client: string, a: real, b: real, m: int, n: nat)
    returns (k: nat, late: int)
    requires Monotone(rs) && LimitsAtMost(rs, client, m) && Window(p) > 0.0 && n <= |rs|
    requires forall i | 0 <= i < n :: rs[i].now <= b
    ensures Admitted(p, rs, client, a, b, n) > 0 ==>
              Ledger(p, Lookup(After(p, rs, n), client), Admitted(p, rs, client, a, b, n), a, m, k, late)
  {
    k, late := 0, 0;
    if n > 0 {
      var r := rs[n - 1];
      assert r in rs;
      k, late := LedgerHolds(p, rs, client, a, b, m, n - 1);
      CountPositive(p, rs, client, n - 1);
      if Key(r) == Some(client) {
        var before, e := Admitted(p, rs, client, a, b, n - 1), Lookup(After(p, rs, n - 1), client);
        assert Lookup(After(p, rs, n), client) == Some(Step(p, e, Limit(r), r.now).1);
        assert Decision(p, rs, n - 1) == Step(p, e, Limit(r), r.now).0;
        hide Ledger, Step, After, Decision, Lookup;
        if r.now < a {
          NothingYet(p, rs, client, a, b, n - 1);
        } else if Decision(p, rs, n - 1) {
          k, late := LedgerStep(p, e, Limit(r), r.now, before, a, m, k, late);
        } else if before > 0 {
          LedgerRefusal(p, e, Limit(r), r.now, before, a, m, k, late);
        }
      }
    }
  }

  lemma {:induction false} NothingYet(p: Policy, rs: seq<Request>, client: string, a: real, b: real, n: nat)
    requires n <= |rs| && forall i | 0 <= i < n :: rs[i].now < a
    ensures Admitted(p, rs, client, a, b, n) == 0
  {
    if n > 0 {
      NothingYet(p, rs, client, a, b, n - 1);
    }
  }

  function Ceiling(x: real): int {
    -(-x).Floor
  }

  lemma CeilingAbove(j: int, x: real)
    requires j as real < x
    ensures j < Ceiling(x)
  {
  }

  lemma Scaled(m: int, k: int, n: int)
    requires m >= 0 && k <= n
    ensures m * k <= m * n
    ensures m * (n + 1) == m * n + m
  {
  }

  lemma SmallerFactor(w: real, x: real, y: real)
    requires w > 0.0 && w * x < w * y
    ensures x < y
  {
  }

  lemma Divided(w: real, x: real, length: real)
    requires w > 0.0 && w * x < length
    ensures x < length / w
  {
    assert w * (length / w) == length;
    SmallerFactor(w, x, length / w);
  }

  /** Windows start more than their length apart, so few fit into the interval. */
  lemma WindowsBound(p: Policy, e: Option<Entry>, admitted: int, a: real, length: real, m: int, k: nat, late: int)
    requires length > 0.0 && Window(p) > 0.0
    requires Ledger(p, e, admitted, a, m, k, late) && e.value.start <= a + length
    ensures k - late < Ceiling(length / Window(p))
  {
    if k > 0 {
      Divided(Window(p), (k - late) as real, length);
      CeilingAbove(k - late, length / Window(p));
    } else {
      Divided(Window(p), 0.0, length);
      CeilingAbove(0, length / Window(p));
    }
  }

  lemma LedgerBound(p: Policy, e: Option<Entry>, admitted: int, a: real, length: real, m: int, k: nat, late: int)
    requires length >= 0.0 && m >= 1 && Window(p) > 0.0
    requires Ledger(p, e, admitted, a, m, k, late) && e.value.start <= a + length
    ensures admitted <= if length == 0.0 then m else m * (Ceiling(length / Window(p)) + 1) - 1
  {
    if length == 0.0 {
      assert k > 1 ==> Window(p) * (k - late) as real >= 0.0;
      assert k == 0;
    } else {
      WindowsBound(p, e, admitted, a, length, m, k, late);
      Scaled(m, k, Ceiling(length / Window(p)) - 1 + late);
      Scaled(m, k, Ceiling(length / Window(p)));
    }
  }

  /** However limiters with different limits are interleaved on one client key, a closed interval of
      `length` seconds lets through at most `m * (ceil(length / window) + 1) - 1` requests of that
      client, and at most `m` if it is a single instant. Counting refused requests or not is the same. */
  lemma {:induction false} IntervalBound(p: Policy, rs: seq<Request>, client: string, a: real, length: real,
                                         m: int, n: nat)
    requires Monotone(rs) && LimitsAtMost(rs, client, m) && length >= 0.0 && Window(p) > 0.0 && n <= |rs|
    ensures Admitted(p, rs, client, a, a + length, n)
            <= if length == 0.0 then m else m * (Ceiling(length / Window(p)) + 1) - 1
  {
    var b := a + length;
    if n > 0 && rs[n - 1].now > b {
      IntervalBound(p, rs, client, a, length, m, n - 1);
    } else {
      var k, late := LedgerHolds(p, rs, client, a, b, m, n);
      var admitted := Admitted(p, rs, client, a, b, n);
      if admitted > 0 {
        StartBeforeNow(p, rs, client, b, n);
        LedgerBound(p, Lookup(After(p, rs, n), client), admitted, a, length, m, k, late);
      } else if length > 0.0 {
        Divided(Window(p), 0.0, length);
        CeilingAbove(0, length / Window(p));
        Scaled(m, 1, Ceiling(length / Window(p)));
      }
    }
  }

  /** Hence the shared limiters let at most `2 * m - 1` through in any minute. */
  lemma MinuteBound(rs: seq<Request>, client: string, a: real, m: int)
    requires Monotone(rs) && LimitsAtMost(rs, client, m)
    ensures Admitted(Shared, rs, client, a, a + 60.0, |rs|) <= 2 * m - 1
  {
    IntervalBound(Shared, rs, client, a, 60.0, m, |rs|);
    assert Ceiling(60.0 / Window(Shared)) == 1;
    assert m * (1 + 1) == 2 * m;
  }

  // The limit holds window by window

  /** Everything counted in a window was admitted within a minute of its start. */
  lemma {:induction false} AdmittedInWindow(rs: seq<Request>, client: string, n: nat, i: nat)
    requires Monotone(rs) && i < n <= |rs| && Key(rs[i]) == Some(client) && Decision(Shared, rs, i)
    ensures var e := Lookup(After(Shared, rs, n), client); e.Some? && rs[i].now <= e.value.start + WINDOW
  {
    if i < n - 1 {
      AdmittedInWindow(rs, client, n - 1, i);
      assert rs[i].now <= rs[n - 1].now;
    }
  }

  lemma {:induction false} NoneAdmitted(rs: seq<Request>, client: string, a: real, b: real, n: nat)
    requires n <= |rs|
    requires forall i | 0 <= i < n && Key(rs[i]) == Some(client) && Decision(Shared, rs, i) :: rs[i].now < a
    ensures Admitted(Shared, rs, client, a, b, n) == 0
  {
    if n > 0 {
      NoneAdmitted(rs, client, a, b, n - 1);
    }
  }

  /** The count kept for a client is the number of requests admitted since the window began. */
  lemma {:induction false} CountIsAdmitted(rs: seq<Request>, client: string, b: real, n: nat)
    requires Monotone(rs) && n <= |rs| && forall i | 0 <= i < n :: rs[i].now <= b
    ensures var e := Lookup(After(Shared, rs, n), client);
            e.Some? ==> e.value.count == Admitted(Shared, rs, client, e.value.start, b, n)
  {
    if n > 0 {
      var r, before := rs[n - 1], Lookup(After(Shared, rs, n - 1), client);
      CountIsAdmitted(rs, client, b, n - 1);
      StartBeforeNow(Shared, rs, client, r.now, n - 1);
      if Key(r) == Some(client) {
        assert Decision(Shared, rs, n - 1) == Step(Shared, before, Limit(r), r.now).0;
        if before.None? || r.now - before.value.start > WINDOW {
          forall i | 0 <= i < n - 1 && Key(rs[i]) == Some(client) && Decision(Shared, rs, i)
            ensures rs[i].now < r.now
          {
            AdmittedInWindow(rs, client, n - 1, i);
          }
          NoneAdmitted(rs, client, r.now, b, n - 1);
        }
      }
    }
  }

  /** In every run of requests with this limit, no window of any client lets more through. */
  ghost predicate LimitHolds(limit: int) {
    forall rs: seq<Request>, client: string, n: nat |
      Monotone(rs) && LimitIs(rs, client, limit) && n <= |rs| :: WithinLimit(rs, client, limit, n)
  }

  ghost predicate WithinLimit(rs: seq<Request>, client: string, limit: int, n: nat)
    requires n <= |rs|
  {
    n > 0 && Lookup(After(Shared, rs, n), client).Some? ==>
      Admitted(Shared, rs, client, Lookup(After(Shared, rs, n), client).value.start, rs[n - 1].now, n) <= limit
  }

  /** A limit below 1 still lets the first request of a window through. */
  lemma FirstRequestPasses(host: string, limit: int)
    ensures var rs := [Decorated(host, None, limit, 0.0)];
            Decision(Shared, rs, 0) && Admitted(Shared, rs, host, 0.0, 0.0, 1) == 1
            && Lookup(After(Shared, rs, 1), host) == Some(Entry(1, 0.0))
  {
    var rs := [Decorated(host, None, limit, 0.0)];
    assert After(Shared, rs, 0) == map[];
    assert Decision(Shared, rs, 0);
    assert Admitted(Shared, rs, host, 0.0, 0.0, 0) == 0;
    assert After(Shared, rs, 1) == Serve(Shared, After(Shared, rs, 0), rs[0]).1;
  }

  /** Every window keeps to the limit in all runs if and only if the limit is at least 1. */
  lemma LimitHoldsExactly(limit: int)
    ensures LimitHolds(limit) <==> limit >= 1
  {
    if limit >= 1 {
      forall rs: seq<Request>, client: string, n: nat | Monotone(rs) && LimitIs(rs, client, limit) && n <= |rs|
        ensures WithinLimit(rs, client, limit, n)
      {
        if n > 0 {
          CountBounded(rs, client, limit, n);
          CountIsAdmitted(rs, client, rs[n - 1].now, n);
        }
      }
    } else {
      var rs := [Decorated("host", None, limit, 0.0)];
      FirstRequestPasses("host", limit);
      assert LimitIs(rs, "host", limit) && !WithinLimit(rs, "host", limit, 1);
    }
  }

  // The two limiters agree

  /** The same client under both limiters: same window, and the shared counter is the other one cut
      off at the limit. */
  ghost predicate SameWindow(e: Option<Entry>, f: Option<Entry>, limit: int) {
    && (e.Some? <==> f.Some?)
    && (e.Some? ==>
          && e.value.start == f.value.start
          && 1 <= f.value.count
          && e.value.count == if f.value.count <= limit || f.value.count == 1 then f.value.count
                              else if limit >= 1 then limit else 1)
  }

  /** All requests of a client come with one limit. */
  predicate LimitIs(rs: seq<Request>, client: string, limit: int) {
    forall r | r in rs && Key(r) == Some(client) :: Limit(r) == limit
  }

  lemma {:induction false} SameWindows(rs: seq<Request>, client: string, limit: int, n: nat)
    requires LimitIs(rs, client, limit) && n <= |rs|
    ensures SameWindow(Lookup(After(Shared, rs, n), client),
                       Lookup(After(CountsRefused(WINDOW), rs, n), client), limit)
  {
    if n > 0 {
      SameWindows(rs, client, limit, n - 1);
      assert rs[n - 1] in rs;
    }
  }

  /** With one limit per client and windows of a minute, counting refused requests or not makes no
      difference: both limiters take the same decision on every request. */
  lemma LimitersAgree(rs: seq<Request>, limit: int, i: nat)
    requires i < |rs|
    requires Key(rs[i]).Some? ==> LimitIs(rs, Key(rs[i]).value, limit)
    ensures Decision(Shared, rs, i) == Decision(CountsRefused(WINDOW), rs, i)
  {
    assert rs[i] in rs;
    if Key(rs[i]).Some? {
      SameWindows(rs, Key(rs[i]).value, limit, i);
    }
  }

  // Clients do not interfere

  /** The requests of one client among the first `n`. */
  function Only(rs: seq<Request>, client: string, n: nat): seq<Request>
    requires n <= |rs|
  {
    if n == 0 then []
    else Only(rs, client, n - 1) + if Key(rs[n - 1]) == Some(client) then [rs[n - 1]] else []
  }

  lemma {:induction false} AfterPrefix(p: Policy, rs: seq<Request>, more: seq<Request>, n: nat)
    requires n <= |rs|
    ensures After(p, rs + more, n) == After(p, rs, n)
  {
    if n > 0 {
      AfterPrefix(p, rs, more, n - 1);
    }
  }

  lemma {:induction false} OwnEntry(p: Policy, rs: seq<Request>, client: string, n: nat)
    requires n <= |rs|
    ensures Lookup(After(p, rs, n), client)
         == Lookup(After(p, Only(rs, client, n), |Only(rs, client, n)|), client)
  {
    if n > 0 {
      OwnEntry(p, rs, client, n - 1);
      var own, r := Only(rs, client, n - 1), rs[n - 1];
      if Key(r) == Some(client) {
        AfterPrefix(p, own, [r], |own|);
      } else {
        assert own + [] == own;
      }
    }
  }

  /** Under either limiter the decision on a client's request depends on that client's own
      requests alone. */
  lemma Isolation(p: Policy, rs: seq<Request>, client: string, i: nat)
    requires i < |rs| && Key(rs[i]) == Some(client)
    ensures var own := Only(rs, client, i + 1);
            && own != [] && own[|own| - 1] == rs[i]
            && Decision(p, rs, i) == Decision(p, own, |own| - 1)
  {
    OwnEntry(p, rs, client, i);
    AfterPrefix(p, Only(rs, client, i), [rs[i]], |Only(rs, client, i)|);
  }
}
