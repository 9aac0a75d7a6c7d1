/** The audit log and its Prometheus metrics (app/plugins/advanced_audit): gauges per resource and per
    action that are adjusted beside the table, and a counter of events. */
module AuditGauges {

  datatype Log = Log(id: nat, resource: string, action: string)

  /** What a metric counts. */
  datatype Label = Resource(name: string) | Action(name: string) | Event(resource: string, action: string)

  datatype State = State(
    logs: seq<Log>,
    nextId: nat,
    byResource: map<string, nat>,
    byAction: map<string, nat>,
    counter: map<(string, string), nat>)

  datatype Op = Initialise | Create(resource: string, action: string) | Delete(id: nat)

  predicate Bears(log: Log, kind: Label) {
    match kind
    case Resource(name) => log.resource == name
    case Action(name) => log.action == name
    case Event(resource, action) => log.resource == resource && log.action == action
  }

  /** The fresh group-by count. */
  function Count(logs: seq<Log>, kind: Label): nat {
    if logs == [] then 0
    else Count(logs[..|logs| - 1], kind) + (if Bears(logs[|logs| - 1], kind) then 1 else 0)
  }

  function Resources(logs: seq<Log>): set<string> {
    set log | log in logs :: log.resource
  }

  function Actions(logs: seq<Log>): set<string> {
    set log | log in logs :: log.action
  }

  function Events(logs: seq<Log>): set<(string, string)> {
    set log | log in logs :: (log.resource, log.action)
  }

  function Value<K>(m: map<K, nat>, k: K): nat {
    if k in m then m[k] else 0
  }

  /** The metric that counts `kind`. */
  function Metric(s: State, kind: Label): nat {
    match kind
    case Resource(name) => Value(s.byResource, name)
    case Action(name) => Value(s.byAction, name)
    case Event(resource, action) => Value(s.counter, (resource, action))
  }

  function ByResource(name: string): Label {
    Resource(name)
  }

  function ByAction(name: string): Label {
    Action(name)
  }

  function Counts(logs: seq<Log>, names: set<string>, kind: string -> Label): map<string, nat> {
    map name | name in names :: Count(logs, kind(name))
  }

  function ResourceCounts(logs: seq<Log>): map<string, nat> {
    Counts(logs, Resources(logs), ByResource)
  }

  function ActionCounts(logs: seq<Log>): map<string, nat> {
    Counts(logs, Actions(logs), ByAction)
  }

  function CountsOfEvents(logs: seq<Log>, events: set<(string, string)>): map<(string, string), nat> {
    map e | e in events :: Count(logs, Event(e.0, e.1))
  }

  function EventCounts(logs: seq<Log>): map<(string, string), nat> {
    CountsOfEvents(logs, Events(logs))
  }

  function Zeros(names: set<string>): map<string, nat> {
    map name | name in names :: 0
  }

  /** The position of the first log with this id, or the number of logs. */
  function Find(logs: seq<Log>, id: nat): (k: nat)
    ensures k <= |logs|
    ensures k < |logs| ==> logs[k].id == id
    ensures forall j | 0 <= j < k :: logs[j].id != id
  {
    if logs == [] || logs[0].id == id then 0 else 1 + Find(logs[1..], id)
  }

  function Without(logs: seq<Log>, k: nat): seq<Log>
    requires k < |logs|
  {
    logs[..k] + logs[k + 1..]
  }

  function Applied(op: Op, s: State): State {
    match op
    case Initialise =>
      s.(byResource := ResourceCounts(s.logs), byAction := ActionCounts(s.logs), counter := EventCounts(s.logs))
    case Create(r, a) =>
      s.(logs := s.logs + [Log(s.nextId, r, a)], nextId := s.nextId + 1,
         byResource := s.byResource[r := Value(s.byResource, r) + 1],
         byAction := s.byAction[a := Value(s.byAction, a) + 1],
         counter := s.counter[(r, a) := Value(s.counter, (r, a)) + 1])
    case Delete(id) =>
      var k := Find(s.logs, id);
      if k == |s.logs| then s
      else
        var logs := Without(s.logs, k);
        s.(logs := logs, byResource := s.byResource + ResourceCounts(logs),
           byAction := s.byAction + ActionCounts(logs))
  }

  class AuditMetrics {
    var logs: seq<Log>
    var nextId: nat
    var byResource: map<string, nat>
    var byAction: map<string, nat>
    var counter: map<(string, string), nat>

    function Model(): State
      reads this
    {
      State(logs, nextId, byResource, byAction, counter)
    }

    /** `initialize_audit_metrics`: clear the metrics and count afresh. */
    method InitialiseMetrics()
      modifies this
      ensures Model() == Applied(Initialise, old(Model()))
    {
      hide Counts, CountsOfEvents;
      byResource, byAction := map[], map[];
      counter := CountEvents();
      byResource := SetToCounts(byResource, Resources(logs), ByResource);
      byAction := SetToCounts(byAction, Actions(logs), ByAction);
    }

    method CountEvents() returns (c: map<(string, string), nat>)
      ensures c == EventCounts(logs)
    {
      c := map[];
      var rest := Events(logs);
      while rest != {}
        invariant rest <= Events(logs)
        invariant c == CountsOfEvents(logs, Events(logs) - rest)
      {
        var e :| e in rest;
        c := c[e := Value(c, e) + Count(logs, Event(e.0, e.1))];
        rest := rest - {e};
      }
      assert Events(logs) - rest == Events(logs);
    }

    /** The loop `for name, count in counts: gauge.labels(name).set(count)`. */
    method SetToCounts(gauge: map<string, nat>, names: set<string>, kind: string -> Label)
      returns (g: map<string, nat>)
      ensures g == gauge + Counts(logs, names, kind)
    {
      g := gauge;
      var rest := names;
      while rest != {}
        invariant rest <= names
        invariant g == gauge + Counts(logs, names - rest, kind)
      {
        var name :| name in rest;
        g := g[name := Count(logs, kind(name))];
        rest := rest - {name};
      }
    }

    /** The loop `for name in names: gauge.labels(name).set(0)`. */
    method SetToZero(gauge: map<string, nat>, names: set<string>) returns (g: map<string, nat>)
      ensures g == gauge + Zeros(names)
    {
      g := gauge;
      var rest := names;
      while rest != {}
        invariant rest <= names
        invariant g == gauge + Zeros(names - rest)
      {
        var name :| name in rest;
        g := g[name := 0];
        rest := rest - {name};
      }
    }

    method CreateLog(resource: string, action: string) returns (log: Log)
      modifies this
      ensures Model() == Applied(Create(resource, action), old(Model()))
      ensures logs == old(logs) + [log]
    {
      log := Log(nextId, resource, action);
      logs, nextId := logs + [log], nextId + 1;
      counter := counter[(resource, action) := Value(counter, (resource, action)) + 1];
      var currentResourceCount := Value(byResource, resource);
      byResource := byResource[resource := currentResourceCount + 1];
      var currentActionCount := Value(byAction, action);
      byAction := byAction[action := currentActionCount + 1];
    }

    /** False is the 404 answer. */
    method DeleteLog(id: nat) returns (found: bool)
      modifies this
      ensures found == exists log | log in old(logs) :: log.id == id
      ensures Model() == Applied(Delete(id), old(Model()))
    {
      var k := Find(logs, id);
      if k == |logs| { return false; }
      assert logs[k] in logs;
      logs := Without(logs, k);
      UpdatePrometheusGauges();
      return true;
    }

    method UpdatePrometheusGauges()
      modifies this`byResource, this`byAction
      ensures byResource == old(byResource) + ResourceCounts(logs)
      ensures byAction == old(byAction) + ActionCounts(logs)
    {
      hide Counts, Zeros;
      byResource := SetToZero(byResource, Resources(logs));
      byAction := SetToZero(byAction, Actions(logs));
      Overwrite(old(byResource), logs, Resources(logs), ByResource);
      Overwrite(old(byAction), logs, Actions(logs), ByAction);
      byResource := SetToCounts(byResource, Resources(logs), ByResource);
      byAction := SetToCounts(byAction, Actions(logs), ByAction);
    }
  }

  lemma Overwrite(gauge: map<string, nat>, logs: seq<Log>, names: set<string>, kind: string -> Label)
    ensures gauge + Zeros(names) + Counts(logs, names, kind) == gauge + Counts(logs, names, kind)
  {
  }

  // Counting

  lemma {:induction false} CountConcat(u: seq<Log>, v: seq<Log>, kind: Label)
    ensures Count(u + v, kind) == Count(u, kind) + Count(v, kind)
  {
    if v == [] {
      assert u + v == u;
    } else {
      assert (u + v)[..|u + v| - 1] == u + v[..|v| - 1];
      CountConcat(u, v[..|v| - 1], kind);
    }
  }

  lemma CountOne(log: Log, kind: Label)
    ensures Count([log], kind) == if Bears(log, kind) then 1 else 0
  {
    assert [log][..0] == [];
  }

  lemma CountWithout(logs: seq<Log>, k: nat, kind: Label)
    requires k < |logs|
    ensures Count(logs, kind) == Count(Without(logs, k), kind) + (if Bears(logs[k], kind) then 1 else 0)
  {
    hide Count;
    assert logs == logs[..k] + ([logs[k]] + logs[k + 1..]);
    CountConcat(logs[..k], [logs[k]] + logs[k + 1..], kind);
    CountConcat([logs[k]], logs[k + 1..], kind);
    CountConcat(logs[..k], logs[k + 1..], kind);
    CountOne(logs[k], kind);
  }

  lemma {:induction false} CountPositive(logs: seq<Log>, kind: Label)
    ensures Count(logs, kind) > 0 <==> exists log | log in logs :: Bears(log, kind)
  {
    if logs != [] {
      var init, last := logs[..|logs| - 1], logs[|logs| - 1];
      CountPositive(init, kind);
      assert logs == init + [last];
    }
  }

  // What each step does to a metric

  function LogsAfterDelete(logs: seq<Log>, id: nat): seq<Log> {
    var k := Find(logs, id);
    if k == |logs| then logs else Without(logs, k)
  }

  /** The step takes away a log the metric does not notice: for a gauge the last log of its label, for
      the counter, which never goes down, any log. */
  predicate Strays(op: Op, s: State, kind: Label) {
    op.Delete?
    && Count(LogsAfterDelete(s.logs, op.id), kind) < Count(s.logs, kind)
    && (kind.Event? || Count(LogsAfterDelete(s.logs, op.id), kind) == 0)
  }

  /** The step sets the metric to the count. */
  predicate Refreshes(op: Op, s: State, kind: Label) {
    op.Initialise?
    || (op.Delete? && !kind.Event? && Find(s.logs, op.id) < |s.logs|
        && Count(LogsAfterDelete(s.logs, op.id), kind) > 0)
  }

  lemma RefreshedMetric(gauge: map<string, nat>, logs: seq<Log>, name: string)
    ensures Value(gauge + ResourceCounts(logs), name)
         == if Count(logs, Resource(name)) > 0 then Count(logs, Resource(name)) else Value(gauge, name)
    ensures Value(gauge + ActionCounts(logs), name)
         == if Count(logs, Action(name)) > 0 then Count(logs, Action(name)) else Value(gauge, name)
  {
    CountPositive(logs, Resource(name));
    CountPositive(logs, Action(name));
  }

  lemma InitialisedMetric(s: State, kind: Label)
    ensures Metric(Applied(Initialise, s), kind) == Count(s.logs, kind)
  {
    hide Count;
    CountPositive(s.logs, kind);
  }

  lemma StepMetric(op: Op, s: State, kind: Label)
    requires Metric(s, kind) >= Count(s.logs, kind)
    ensures Metric(Applied(op, s), kind)
         == Count(Applied(op, s).logs, kind)
            + (if Refreshes(op, s, kind) then 0 else Metric(s, kind) - Count(s.logs, kind))
            + (if Strays(op, s, kind) then 1 else 0)
  {
    hide Count, ResourceCounts, ActionCounts, EventCounts;
    match op
    case Initialise =>
      InitialisedMetric(s, kind);
    case Create(r, a) =>
      var log := Log(s.nextId, r, a);
      CountConcat(s.logs, [log], kind);
      CountOne(log, kind);
    case Delete(id) =>
      var k := Find(s.logs, id);
      if k < |s.logs| {
        CountWithout(s.logs, k, kind);
        var logs := Without(s.logs, k);
        match kind
        case Resource(name) => RefreshedMetric(s.byResource, logs, name);
        case Action(name) => RefreshedMetric(s.byAction, logs, name);
        case Event(_, _) =>
      }
  }

  // Whole runs: the process starts by counting whatever the table holds

  function After(start: State, ops: seq<Op>, n: nat): State
    requires n <= |ops|
  {
    if n == 0 then Applied(Initialise, start) else Applied(ops[n - 1], After(start, ops, n - 1))
  }

  /** How many logs the metric has failed to notice since it was last set to the count. */
  function Strayed(start: State, ops: seq<Op>, n: nat, kind: Label): nat
    requires n <= |ops|
  {
    if n == 0 then 0
    else
      var op, s := ops[n - 1], After(start, ops, n - 1);
      (if Refreshes(op, s, kind) then 0 else Strayed(start, ops, n - 1, kind))
      + (if Strays(op, s, kind) then 1 else 0)
  }

  /** In every run each metric is the count plus what it failed to notice; it is never below. */
  lemma {:induction false} MetricExact(start: State, ops: seq<Op>, n: nat, kind: Label)
    requires n <= |ops|
    ensures Metric(After(start, ops, n), kind)
         == Count(After(start, ops, n).logs, kind) + Strayed(start, ops, n, kind)
  {
    hide Applied, Metric, Count, Refreshes, Strays;
    if n == 0 {
      InitialisedMetric(start, kind);
      InitialisedLogs(start);
    } else {
      MetricExact(start, ops, n - 1, kind);
      StepMetric(ops[n - 1], After(start, ops, n - 1), kind);
    }
  }

  lemma InitialisedLogs(s: State)
    ensures Applied(Initialise, s).logs == s.logs
  {
  }

  predicate StraysAt(start: State, ops: seq<Op>, j: nat, kind: Label)
    requires j < |ops|
  {
    Strays(ops[j], After(start, ops, j), kind)
  }

  predicate RefreshesAt(start: State, ops: seq<Op>, j: nat, kind: Label)
    requires j < |ops|
  {
    Refreshes(ops[j], After(start, ops, j), kind)
  }

  /** Each log the metric failed to notice was followed by a step that set it to the count. */
  predicate CaughtUp(start: State, ops: seq<Op>, n: nat, kind: Label)
    requires n <= |ops|
  {
    forall j: nat | j < n && StraysAt(start, ops, j, kind) ::
      exists r: nat | j < r < n :: RefreshesAt(start, ops, r, kind)
  }

  lemma MetricExactlyWhen(start: State, ops: seq<Op>, n: nat, kind: Label)
    requires n <= |ops|
    ensures Metric(After(start, ops, n), kind) == Count(After(start, ops, n).logs, kind)
       <==> CaughtUp(start, ops, n, kind)
  {
    hide After, Metric, Count, CaughtUp;
    MetricExact(start, ops, n, kind);
    StrayedZero(start, ops, n, kind);
  }

  lemma RefreshDoesNotStray(start: State, ops: seq<Op>, j: nat, kind: Label)
    requires j < |ops|
    ensures !(RefreshesAt(start, ops, j, kind) && StraysAt(start, ops, j, kind))
  {
  }

  lemma CaughtUpStep(start: State, ops: seq<Op>, n: nat, kind: Label)
    requires n < |ops|
    ensures CaughtUp(start, ops, n + 1, kind)
       <==> RefreshesAt(start, ops, n, kind) || (CaughtUp(start, ops, n, kind) && !StraysAt(start, ops, n, kind))
  {
    hide After, RefreshesAt, StraysAt;
    RefreshDoesNotStray(start, ops, n, kind);
    if CaughtUp(start, ops, n + 1, kind) && !RefreshesAt(start, ops, n, kind) {
      forall j: nat | j < n && StraysAt(start, ops, j, kind)
        ensures exists r: nat | j < r < n :: RefreshesAt(start, ops, r, kind)
      {
        var r: nat :| j < r < n + 1 && RefreshesAt(start, ops, r, kind);
        assert r < n;
      }
    }
  }

  lemma {:induction false} StrayedZero(start: State, ops: seq<Op>, n: nat, kind: Label)
    requires n <= |ops|
    ensures Strayed(start, ops, n, kind) == 0 <==> CaughtUp(start, ops, n, kind)
  {
    hide Applied, CaughtUp, Refreshes, Strays;
    if n > 0 {
      StrayedZero(start, ops, n - 1, kind);
      CaughtUpStep(start, ops, n - 1, kind);
      RefreshDoesNotStray(start, ops, n - 1, kind);
    } else {
      assert CaughtUp(start, ops, 0, kind) by { NothingYet(start, ops, kind); }
    }
  }

  lemma NothingYet(start: State, ops: seq<Op>, kind: Label)
    ensures CaughtUp(start, ops, 0, kind)
  {
  }

  /** Runs that never delete the last log of a label keep its gauge equal to the count. */
  lemma GaugeAgrees(start: State, ops: seq<Op>, n: nat, kind: Label)
    requires n <= |ops| && !kind.Event?
    requires forall j | 0 <= j < n && ops[j].Delete? ::
               Count(After(start, ops, j).logs, kind) > 0
               ==> Count(LogsAfterDelete(After(start, ops, j).logs, ops[j].id), kind) > 0
    ensures Metric(After(start, ops, n), kind) == Count(After(start, ops, n).logs, kind)
  {
    hide After, Metric;
    assert CaughtUp(start, ops, n, kind);
    MetricExactlyWhen(start, ops, n, kind);
  }

  /** Deleting the only log of a resource leaves its gauge at 1. */
  lemma StaleGauge()
    ensures var log := Log(0, "user", "created");
            var s := After(State([log], 1, map[], map[], map[]), [Delete(0)], 1);
            Metric(s, Resource("user")) == 1 && Count(s.logs, Resource("user")) == 0
  {
    var log := Log(0, "user", "created");
    var start := State([log], 1, map[], map[], map[]);
    assert After(start, [Delete(0)], 0) == Applied(Initialise, start);
    InitialisedMetric(start, Resource("user"));
    CountOne(log, Resource("user"));
    assert Without([log], 0) == [];
  }

  // Identifiers

  /** Logs have different identifiers, and the next one is above them all. */
  ghost predicate DistinctIds(s: State) {
    && (forall i, j | 0 <= i < j < |s.logs| :: s.logs[i].id != s.logs[j].id)
    && forall i | 0 <= i < |s.logs| :: s.logs[i].id < s.nextId
  }

  lemma IdsStep(s: State, op: Op)
    requires DistinctIds(s)
    ensures DistinctIds(Applied(op, s))
  {
    hide ResourceCounts, ActionCounts, EventCounts;
  }

  /** Over whole runs, no two logs have one identifier. */
  lemma {:induction false} IdsStayDistinct(start: State, ops: seq<Op>, n: nat)
    requires n <= |ops| && DistinctIds(start)
    ensures DistinctIds(After(start, ops, n))
  {
    hide Applied, DistinctIds;
    if n > 0 {
      IdsStayDistinct(start, ops, n - 1);
      IdsStep(After(start, ops, n - 1), ops[n - 1]);
    } else {
      IdsStep(start, Initialise);
    }
  }

  /** So a deletion takes away the log with the identifier and no other. */
  lemma DeletionIsExact(s: State, id: nat)
    requires DistinctIds(s)
    ensures var logs := Applied(Delete(id), s).logs;
            && (forall log | log in logs :: log in s.logs && log.id != id)
            && (forall log | log in s.logs && log.id != id :: log in logs)
  {
    var k := Find(s.logs, id);
    var logs := LogsAfterDelete(s.logs, id);
    hide ResourceCounts, ActionCounts, EventCounts;
    if k < |s.logs| {
      forall log | log in s.logs && log.id != id
        ensures log in logs
      {
        var i :| 0 <= i < |s.logs| && s.logs[i] == log;
        assert logs[if i < k then i else i - 1] == log;
      }
    } else {
      assert forall log | log in s.logs :: log.id != id;
    }
  }
}
