/** Which requests a limiter counts, and under which client, in terms of their paths, hosts, users and
    tokens; and what the authentication limiter lets through. */
module RateLimitClients {
  import opened Options
  import opened Text
  import opened TextLaws
  import opened RateLimit

  // The shared limiters

  /** Through the decorator: nothing without a request, the host alone without a user. */
  lemma DecoratedCounted(p: Policy, t: Table, host: string, user: string, limit: int, now: real)
    ensures Serve(p, t, Undecorated(now)) == (true, t)
    ensures Serve(p, t, Decorated(host, None, limit, now)) == Counted(p, t, host, limit, now)
    ensures Serve(p, t, Decorated(host, Some(user), limit, now)) == Counted(p, t, host + ":" + user, limit, now)
  {
  }

  ghost predicate Starts(path: string, beginning: string) {
    exists rest: string :: path == beginning + rest
  }

  ghost predicate Excluded(excluded: seq<string>, path: string) {
    exists i :: 0 <= i < |excluded| && Starts(path, excluded[i])
  }

  lemma ExcludedExactly(excluded: seq<string>, path: string)
    ensures Excluded(excluded, path) <==> AnyPrefix(excluded, path)
  {
    if p :| p in excluded && p <= path {
      var i :| 0 <= i < |excluded| && excluded[i] == p;
      assert path == p + path[|p|..];
      assert Starts(path, excluded[i]);
    }
    if i :| 0 <= i < |excluded| && Starts(path, excluded[i]) {
      assert excluded[i] in excluded && excluded[i] <= path;
    }
  }

  /** The part of a token that counts. */
  predicate TokenPart(token: string, part: string) {
    part <= token && |part| == if |token| < 16 then |token| else 16
  }

  /** Through the middleware: excluded paths pass; the host alone without a bearer token. */
  lemma DispatchedCounted(p: Policy, t: Table, path: string, excluded: seq<string>, host: string,
                          authorization: Option<string>, limit: int, now: real)
    ensures var answer := Serve(p, t, Dispatched(path, excluded, host, authorization, limit, now));
            && (Excluded(excluded, path) ==> answer == (true, t))
            && (!Excluded(excluded, path) && (authorization.None? || !("Bearer " <= authorization.value)) ==>
                  answer == Counted(p, t, host, limit, now))
  {
    ExcludedExactly(excluded, path);
    hide Excluded, AnyPrefix, ReplaceAll;
  }

  lemma TokenOf(authorization: string, token: string)
    requires authorization == "Bearer " + token && !Contains(token, "Bearer ")
    ensures ReplaceAll(authorization, "Bearer ", "") == token
  {
    assert authorization[|"Bearer "|..] == token;
    ReplaceAbsent(token, "Bearer ", "");
  }

  /** With one, the host and the first 16 characters of the token. */
  lemma TokenCounted(p: Policy, t: Table, path: string, excluded: seq<string>, host: string,
                     token: string, part: string, limit: int, now: real)
    requires !Excluded(excluded, path) && !Contains(token, "Bearer ") && TokenPart(token, part)
    ensures Serve(p, t, Dispatched(path, excluded, host, Some("Bearer " + token), limit, now))
         == Counted(p, t, host + ":" + part, limit, now)
  {
    ExcludedExactly(excluded, path);
    TokenOf("Bearer " + token, token);
    hide Excluded, AnyPrefix, ReplaceAll, Contains;
    assert part == token[..|part|];
    assert token == token[..|token|];
  }

  /** Whatever follows `Bearer `, every further `Bearer ` in it is dropped first. */
  lemma AnyTokenCounted(p: Policy, t: Table, path: string, excluded: seq<string>, host: string,
                        authorization: string, part: string, limit: int, now: real)
    requires !Excluded(excluded, path) && "Bearer " <= authorization
    requires TokenPart(Join(Split(authorization, "Bearer "), ""), part)
    ensures Serve(p, t, Dispatched(path, excluded, host, Some(authorization), limit, now))
         == Counted(p, t, host + ":" + part, limit, now)
  {
    ExcludedExactly(excluded, path);
    ReplaceExactly(authorization, "Bearer ", "");
    hide Excluded, AnyPrefix, ReplaceAll, Split, Join;
    var token := ReplaceAll(authorization, "Bearer ", "");
    assert part == token[..|part|];
    assert token == token[..|token|];
  }

  // The authentication limiter

  /** Requests to the three endpoints are counted under their host, all others pass. */
  lemma AuthenticationCounted(p: Policy, t: Table, path: string, host: string, limit: int, now: real)
    ensures Serve(p, t, AuthDispatched(path, host, limit, now))
         == if "/auth/login" <= path || "/auth/register" <= path || "/auth/reset-password" <= path
            then Counted(p, t, host, limit, now) else (true, t)
  {
    AuthEndpoints(path);
  }

  /** A request as the authentication limiter sees it. */
  datatype Call = Call(path: string, host: string, now: real)

  /** A run of calls at a limiter with one limit. */
  function Calls(calls: seq<Call>, limit: int): (rs: seq<Request>)
    ensures |rs| == |calls|
    ensures forall i | 0 <= i < |rs| :: rs[i] == AuthDispatched(calls[i].path, calls[i].host, limit, calls[i].now)
  {
    seq(|calls|, i requires 0 <= i < |calls| => AuthDispatched(calls[i].path, calls[i].host, limit, calls[i].now))
  }

  /** Call `i` goes through a limiter that starts empty. */
  predicate Passes(window: real, limit: int, calls: seq<Call>, i: nat)
    requires i < |calls|
  {
    Decision(CountsRefused(window), Calls(calls, limit), i)
  }

  predicate IsFrom(c: Call, host: string) {
    ToAuthentication(c.path) && c.host == host
  }

  /** The calls of `host` to the three endpoints that go through between `a` and `b`. */
  ghost function Through(window: real, limit: int, calls: seq<Call>, host: string, a: real, b: real): set<nat> {
    set i: nat | i < |calls| && IsFrom(calls[i], host) && a <= calls[i].now <= b && Passes(window, limit, calls, i)
  }

  ghost predicate InOrder(calls: seq<Call>) {
    forall i, j | 0 <= i <= j < |calls| :: calls[i].now <= calls[j].now
  }

  lemma KeyIsHost(c: Call, limit: int, host: string)
    ensures Key(AuthDispatched(c.path, c.host, limit, c.now)) == Some(host) <==> IsFrom(c, host)
  {
    AuthEndpoints(c.path);
  }

  /** A call to another path passes, whatever happened before. */
  lemma OthersPass(window: real, limit: int, calls: seq<Call>, i: nat)
    requires i < |calls| && !ToAuthentication(calls[i].path)
    ensures Passes(window, limit, calls, i)
  {
    AuthenticationCounted(CountsRefused(window), After(CountsRefused(window), Calls(calls, limit), i),
                          calls[i].path, calls[i].host, limit, calls[i].now);
  }

  lemma OneMore(all: set<nat>, n: nat)
    ensures |set i: nat | i < n + 1 && i in all| == |set i: nat | i < n && i in all| + if n in all then 1 else 0
  {
    assert (set i: nat | i < n + 1 && i in all) == (set i: nat | i < n && i in all) + if n in all then {n} else {};
  }

  /** The requests of `client` that pass between `a` and `b`. */
  ghost predicate IsThrough(p: Policy, rs: seq<Request>, client: string, a: real, b: real, all: set<nat>) {
    forall i: nat | i < |rs| :: i in all <==> Key(rs[i]) == Some(client) && a <= rs[i].now <= b && Decision(p, rs, i)
  }

  lemma {:induction false} AdmittedCounts(p: Policy, rs: seq<Request>, client: string, a: real, b: real,
                                          all: set<nat>, n: nat)
    requires IsThrough(p, rs, client, a, b, all) && n <= |rs|
    ensures |set i: nat | i < n && i in all| == Admitted(p, rs, client, a, b, n)
  {
    hide Key, Decision;
    if n == 0 {
      assert (set i: nat | i < n && i in all) == {};
    } else {
      AdmittedCounts(p, rs, client, a, b, all, n - 1);
      OneMore(all, n - 1);
    }
  }

  lemma ThroughCounted(window: real, limit: int, calls: seq<Call>, host: string, a: real, b: real)
    ensures |Through(window, limit, calls, host, a, b)|
         == Admitted(CountsRefused(window), Calls(calls, limit), host, a, b, |calls|)
  {
    var all, rs, p := Through(window, limit, calls, host, a, b), Calls(calls, limit), CountsRefused(window);
    forall i: nat | i < |rs|
      ensures i in all <==> Key(rs[i]) == Some(host) && a <= rs[i].now <= b && Decision(p, rs, i)
    {
      KeyIsHost(calls[i], limit, host);
    }
    assert IsThrough(p, rs, host, a, b, all);
    hide IsThrough;
    AdmittedCounts(p, rs, host, a, b, all, |calls|);
    assert (set i: nat | i < |calls| && i in all) == all;
  }

  /** In any `length` seconds at most `m * (ceil(length / window) + 1) - 1` of a host's calls to the
      three endpoints go through, where `m` is the limit, and at least 1;
      in a single instant at most `m`. */
  lemma AuthenticationBound(window: real, limit: int, calls: seq<Call>, host: string, a: real, length: real, m: int)
    requires InOrder(calls) && window > 0.0 && length >= 0.0 && m == if limit < 1 then 1 else limit
    ensures |Through(window, limit, calls, host, a, a + length)|
            <= if length == 0.0 then m else m * (Ceiling(length / window) + 1) - 1
  {
    var rs, n := Calls(calls, limit), |calls|;
    ThroughCounted(window, limit, calls, host, a, a + length);
    hide Through, Admitted, Ceiling;
    IntervalBound(CountsRefused(window), rs, host, a, length, m, n);
  }

  // A burst

  /** The calls of `host` to the three endpoints among the first `n`. */
  ghost function Earlier(calls: seq<Call>, host: string, n: nat): (s: set<nat>)
    requires n <= |calls|
  {
    set i: nat | i < n && IsFrom(calls[i], host)
  }

  /** All calls of `host` to the three endpoints come within one window. */
  ghost predicate Burst(window: real, calls: seq<Call>, host: string) {
    forall i, j | 0 <= i <= j < |calls| && IsFrom(calls[i], host) && IsFrom(calls[j], host) ::
      calls[j].now - calls[i].now <= window
  }

  /** What is kept of `host` after `n` calls: the number of its calls, and the time of one of them. */
  ghost predicate Kept(calls: seq<Call>, host: string, n: nat, e: Option<Entry>)
    requires n <= |calls|
  {
    match e
    case None => Earlier(calls, host, n) == {}
    case Some(Entry(count, start)) =>
      count == |Earlier(calls, host, n)|
      && exists i :: 0 <= i < n && IsFrom(calls[i], host) && calls[i].now == start
  }

  lemma EarlierNext(calls: seq<Call>, host: string, n: nat)
    requires n < |calls|
    ensures Earlier(calls, host, n + 1) == Earlier(calls, host, n) + if IsFrom(calls[n], host) then {n} else {}
  {
  }

  lemma EntryNext(p: Policy, rs: seq<Request>, client: string, n: nat)
    requires n < |rs|
    ensures var before, after := Lookup(After(p, rs, n), client), Lookup(After(p, rs, n + 1), client);
            after == if Key(rs[n]) == Some(client) then Some(Step(p, before, Limit(rs[n]), rs[n].now).1) else before
  {
    hide Step, Key;
  }

  lemma KeptNext(window: real, limit: int, calls: seq<Call>, host: string, n: nat, e: Option<Entry>)
    requires Burst(window, calls, host) && n < |calls| && IsFrom(calls[n], host) && Kept(calls, host, n, e)
    ensures Kept(calls, host, n + 1, Some(Step(CountsRefused(window), e, limit, calls[n].now).1))
  {
    EarlierNext(calls, host, n);
    hide IsFrom, Earlier;
    if e.Some? {
      assert calls[n].now - e.value.start <= window;
    }
  }

  ghost predicate TableKeeps(window: real, limit: int, calls: seq<Call>, host: string, n: nat)
    requires n <= |calls|
  {
    Kept(calls, host, n, Lookup(After(CountsRefused(window), Calls(calls, limit), n), host))
  }

  lemma TableKeepsNext(window: real, limit: int, calls: seq<Call>, host: string, n: nat)
    requires Burst(window, calls, host) && n < |calls| && TableKeeps(window, limit, calls, host, n)
    ensures TableKeeps(window, limit, calls, host, n + 1)
  {
    var p, rs := CountsRefused(window), Calls(calls, limit);
    EntryNext(p, rs, host, n);
    KeyIsHost(calls[n], limit, host);
    var e := Lookup(After(p, rs, n), host);
    hide Key, After, Lookup, Earlier, Step, Burst, IsFrom;
    if IsFrom(calls[n], host) {
      hide Kept;
      KeptNext(window, limit, calls, host, n, e);
    } else {
      EarlierNext(calls, host, n);
      assert Earlier(calls, host, n + 1) == Earlier(calls, host, n);
    }
  }

  lemma {:induction false} BurstKept(window: real, limit: int, calls: seq<Call>, host: string, n: nat)
    requires Burst(window, calls, host) && n <= |calls|
    ensures TableKeeps(window, limit, calls, host, n)
  {
    if n > 0 {
      hide Burst, TableKeeps;
      BurstKept(window, limit, calls, host, n - 1);
      TableKeepsNext(window, limit, calls, host, n - 1);
    }
  }

  lemma KeptCounts(calls: seq<Call>, host: string, n: nat, e: Option<Entry>)
    requires n <= |calls| && Kept(calls, host, n, e) && e.Some?
    ensures |Earlier(calls, host, n)| > 0
  {
    var i :| 0 <= i < n && IsFrom(calls[i], host) && calls[i].now == e.value.start;
    assert i in Earlier(calls, host, n);
  }

  /** Within one window, whatever other hosts and paths are called in between, the first calls of a host
      pass, up to the limit, and the first one in any case; all later ones are refused. */
  lemma BurstExactly(window: real, limit: int, calls: seq<Call>, host: string, i: nat)
    requires Burst(window, calls, host) && i < |calls| && IsFrom(calls[i], host)
    ensures Passes(window, limit, calls, i)
       <==> |Earlier(calls, host, i)| < limit || |Earlier(calls, host, i)| == 0
  {
    BurstKept(window, limit, calls, host, i);
    KeyIsHost(calls[i], limit, host);
    var p, rs := CountsRefused(window), Calls(calls, limit);
    var e := Lookup(After(p, rs, i), host);
    assert Passes(window, limit, calls, i) == Step(p, e, limit, calls[i].now).0;
    hide IsFrom, Key, After, Serve, Lookup, Earlier, Passes, Decision;
    if e.Some? {
      assert calls[i].now - e.value.start <= window;
      KeptCounts(calls, host, i, e);
    }
  }
}
