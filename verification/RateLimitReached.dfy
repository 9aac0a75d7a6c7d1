/** Runs that reach the bound on admissions, for every limit and every length of the interval. */
module RateLimitReached {
  import opened Options
  import opened RateLimit

  /** `rs` and then `n` times `r`. */
  function Repeated(rs: seq<Request>, r: Request, n: nat): seq<Request> {
    if n == 0 then rs else Repeated(rs, r, n - 1) + [r]
  }

  /** One request at 0 and the rest of its window a minute later, then `w` full windows `step` apart. */
  function FullWindows(host: string, m: int, step: real, w: nat): seq<Request>
    requires m >= 1
  {
    if w == 0 then Repeated([Decorated(host, None, m, 0.0)], Decorated(host, None, m, 60.0), m - 1)
    else Repeated(FullWindows(host, m, step, w - 1), Decorated(host, None, m, w as real * step), m)
  }

  /** Requests of one client with limit `m`, none later than `t`; its entry; how many passed. */
  ghost predicate Reaches(rs: seq<Request>, host: string, m: int, t: real, a: real, b: real,
                          e: Option<Entry>, admitted: int) {
    && Monotone(rs) && LimitsAtMost(rs, host, m) && (forall r | r in rs :: r.now <= t)
    && Lookup(After(Shared, rs, |rs|), host) == e
    && Admitted(Shared, rs, host, a, b, |rs|) == admitted
  }

  /** One more request of the client. */
  lemma OneMore(rs: seq<Request>, host: string, m: int, t: real, now: real, a: real, b: real,
                e: Option<Entry>, admitted: int)
    requires m >= 1 && Reaches(rs, host, m, t, a, b, e, admitted) && t <= now
    ensures var (passes, f) := Step(Shared, e, m, now);
            Reaches(rs + [Decorated(host, None, m, now)], host, m, now, a, b, Some(f),
                    admitted + if a <= now <= b && passes then 1 else 0)
  {
    var r := Decorated(host, None, m, now);
    AfterPrefix(Shared, rs, [r], |rs|);
    AdmittedPrefix(rs, [r], host, a, b, |rs|);
    forall i, j | 0 <= i <= j < |rs + [r]|
      ensures (rs + [r])[i].now <= (rs + [r])[j].now
    {
      if i < |rs| && j == |rs| { assert rs[i] in rs; }
    }
  }

  lemma {:induction false} AdmittedPrefix(rs: seq<Request>, more: seq<Request>, client: string, a: real, b: real, n: nat)
    requires n <= |rs|
    ensures Admitted(Shared, rs + more, client, a, b, n) == Admitted(Shared, rs, client, a, b, n)
  {
    if n > 0 {
      AdmittedPrefix(rs, more, client, a, b, n - 1);
      AfterPrefix(Shared, rs, more, n - 1);
    }
  }

  /** More requests in a window that has room for them. */
  lemma {:induction false} Fill(rs: seq<Request>, host: string, m: int, t: real, now: real, a: real, b: real,
                                e: Entry, admitted: int, n: nat)
    requires m >= 1 && Reaches(rs, host, m, t, a, b, Some(e), admitted) && t <= now
    requires now - e.start <= WINDOW && e.count + n <= m && a <= now <= b
    ensures var last := if n == 0 then t else now;
            Reaches(Repeated(rs, Decorated(host, None, m, now), n), host, m, last, a, b,
                    Some(Entry(e.count + n, e.start)), admitted + n)
  {
    hide Reaches;
    if n > 0 {
      Fill(rs, host, m, t, now, a, b, e, admitted, n - 1);
      OneMore(Repeated(rs, Decorated(host, None, m, now), n - 1), host, m, if n == 1 then t else now, now, a, b,
              Some(Entry(e.count + n - 1, e.start)), admitted + n - 1);
    }
  }

  /** A new window, filled at once. */
  lemma NewWindow(rs: seq<Request>, host: string, m: int, t: real, now: real, a: real, b: real,
                  e: Option<Entry>, admitted: int)
    requires m >= 1 && Reaches(rs, host, m, t, a, b, e, admitted) && t <= now && a <= now <= b
    requires e.Some? ==> now - e.value.start > WINDOW
    ensures Reaches(Repeated(rs, Decorated(host, None, m, now), m), host, m, now, a, b,
                    Some(Entry(m, now)), admitted + m)
  {
    var r := Decorated(host, None, m, now);
    hide Reaches;
    OneMore(rs, host, m, t, now, a, b, e, admitted);
    Fill(rs + [r], host, m, now, now, a, b, Entry(1, now), admitted + 1, m - 1);
    RepeatedFirst(rs, r, m - 1);
  }

  lemma {:induction false} RepeatedFirst(rs: seq<Request>, r: Request, n: nat)
    ensures Repeated(rs + [r], r, n) == Repeated(rs, r, n + 1)
  {
    if n > 0 { RepeatedFirst(rs, r, n - 1); }
  }

  lemma Nothing(host: string, m: int, t: real, a: real, b: real)
    requires m >= 1
    ensures Reaches([], host, m, t, a, b, None, 0)
  {
  }

  lemma Stretch(j: nat, step: real)
    requires step > 60.0
    ensures (j + 1) as real * step == j as real * step + step
    ensures j >= 1 ==> j as real * step >= step
  {
    assert j >= 1 ==> (j - 1) as real * step >= 0.0;
  }

  lemma FirstWindow(host: string, m: int, step: real, b: real)
    requires m >= 1 && 60.0 <= b
    ensures Reaches(FullWindows(host, m, step, 0), host, m, 60.0, 60.0, b, Some(Entry(m, 0.0)), m - 1)
  {
    var first := [Decorated(host, None, m, 0.0)];
    Nothing(host, m, 0.0, 60.0, b);
    OneMore([], host, m, 0.0, 0.0, 60.0, b, None, 0);
    assert [] + first == first;
    Fill(first, host, m, 0.0, 60.0, 60.0, b, Entry(1, 0.0), 0, m - 1);
  }

  lemma NextWindow(host: string, m: int, step: real, b: real, w: nat, t: real, start: real, admitted: int)
    requires m >= 1 && w >= 1 && t <= w as real * step <= b && 60.0 <= w as real * step
    requires w as real * step - start > WINDOW
    requires Reaches(FullWindows(host, m, step, w - 1), host, m, t, 60.0, b, Some(Entry(m, start)), admitted)
    ensures Reaches(FullWindows(host, m, step, w), host, m, w as real * step, 60.0, b,
                    Some(Entry(m, w as real * step)), admitted + m)
  {
    hide Reaches;
    NewWindow(FullWindows(host, m, step, w - 1), host, m, t, w as real * step, 60.0, b, Some(Entry(m, start)), admitted);
  }

  function StartOf(step: real, w: nat): real {
    if w == 0 then 0.0 else w as real * step
  }

  function Counted(m: int, w: nat): int {
    if w == 0 then m - 1 else Counted(m, w - 1) + m
  }

  lemma {:induction false} CountedAll(m: int, w: nat)
    ensures Counted(m, w) == m * (w + 1) - 1
  {
    if w > 0 {
      CountedAll(m, w - 1);
      assert m * (w + 1) == m * (w - 1 + 1) + m;
    }
  }

  /** Everything but the very first request is counted. */
  lemma {:induction false} WindowsRun(host: string, m: int, step: real, b: real, w: nat)
    requires m >= 1 && step > 60.0 && 60.0 <= b && w as real * step <= b
    ensures Reaches(FullWindows(host, m, step, w), host, m, if w == 0 then 60.0 else StartOf(step, w), 60.0, b,
                    Some(Entry(m, StartOf(step, w))), Counted(m, w))
  {
    hide Reaches, FullWindows;
    if w == 0 {
      FirstWindow(host, m, step, b);
    } else {
      Stretch(w - 1, step);
      Stretch(w, step);
      WindowsRun(host, m, step, b, w - 1);
      NextWindow(host, m, step, b, w, if w == 1 then 60.0 else StartOf(step, w - 1), StartOf(step, w - 1), Counted(m, w - 1));
    }
  }

  /** How far apart `w` windows must start to fill an interval of this length. */
  function StepFor(length: real, w: nat): real
    requires w >= 1
  {
    60.0 + (length - 60.0 * (w - 1) as real) / w as real
  }

  lemma StepFits(length: real)
    requires length > 0.0
    ensures var w := Ceiling(length / WINDOW);
            w >= 1 && StepFor(length, w) > 60.0 && w as real * StepFor(length, w) == 60.0 + length
  {
    var x := length / WINDOW;
    var w := Ceiling(x);
    CeilingAbove(0, x);
    assert (w - 1) as real < x;
    assert x * 60.0 == length;
    var rest := length - 60.0 * (w - 1) as real;
    assert rest > 0.0;
    PartsOf(rest, w);
    assert w as real * 60.0 == 60.0 * (w - 1) as real + 60.0;
  }

  lemma PartsOf(rest: real, w: nat)
    requires w >= 1 && rest > 0.0
    ensures rest / w as real > 0.0 && w as real * (rest / w as real) == rest
  {
  }

  /** A run that reaches the bound of `IntervalBound` in the interval of this length that starts at 60. */
  function FullRun(host: string, m: int, length: real): seq<Request>
    requires m >= 1 && length > 0.0
  {
    StepFits(length);
    var w := Ceiling(length / WINDOW);
    FullWindows(host, m, StepFor(length, w), w)
  }

  /** The bound is reached, for every limit and every length above 0. */
  lemma IntervalBoundReached(host: string, m: int, length: real)
    requires m >= 1 && length > 0.0
    ensures var rs := FullRun(host, m, length);
            && Monotone(rs) && LimitsAtMost(rs, host, m)
            && Admitted(Shared, rs, host, 60.0, 60.0 + length, |rs|) == m * (Ceiling(length / WINDOW) + 1) - 1
  {
    StepFits(length);
    var w := Ceiling(length / WINDOW);
    WindowsRun(host, m, StepFor(length, w), 60.0 + length, w);
    CountedAll(m, w);
  }

  /** In a single instant it is `m`. */
  lemma InstantBoundReached(host: string, m: int)
    requires m >= 1
    ensures var rs := Repeated([], Decorated(host, None, m, 0.0), m);
            && Monotone(rs) && LimitsAtMost(rs, host, m)
            && Admitted(Shared, rs, host, 0.0, 0.0, |rs|) == m
  {
    Nothing(host, m, 0.0, 0.0, 0.0);
    NewWindow([], host, m, 0.0, 0.0, 0.0, 0.0, None, 0);
  }

  /** In a minute it is `2 * m - 1`. */
  lemma MinuteBoundReached(host: string, m: int)
    requires m >= 1
    ensures var rs := FullRun(host, m, 60.0);
            && Monotone(rs) && LimitsAtMost(rs, host, m)
            && Admitted(Shared, rs, host, 60.0, 120.0, |rs|) == 2 * m - 1
  {
    IntervalBoundReached(host, m, 60.0);
    assert Ceiling(60.0 / WINDOW) == 1;
    assert m * (1 + 1) == 2 * m;
  }
}
