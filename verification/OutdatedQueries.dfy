// The sweep that selects which scheduled queries to enqueue.

module OutdatedQueries {
  import opened Outcomes
  import opened Fermat
  import opened Numerals
  import opened Scheduler
  import opened OrderedDict

  datatype Schedule = Schedule(interval: Option<int>, time: Option<TimeOfDay>, day: Option<DayName>, until: Option<int>)

  /** A query with a schedule; latest is when its latest result was retrieved. */
  datatype Query = Query(id: nat, hash: string, dataSource: Option<nat>, schedule: Schedule,
                         failures: nat, latest: Option<int>)

  /** The run a query's plan counts from: the recorded execution, else the latest result, else now. */
  function PreviousRun(q: Query, executions: map<nat, int>, now: int): int {
    if q.id in executions then executions[q.id]
    else if q.latest.Some? then q.latest.value
    else now
  }

  predicate Expired(q: Query, now: int) {
    q.schedule.until.Some? && q.schedule.until.value <= now
  }

  /** Whether the sweep takes the query. */
  function Outdated(q: Query, executions: map<nat, int>, now: int): Result<bool> {
    if q.schedule.interval.None? || Expired(q, now) then Ok(false)
    else
      ShouldScheduleNext(PreviousRun(q, executions, now), now,
                         q.schedule.interval, q.schedule.time, q.schedule.day, q.failures)
  }

  function ShowSource(dataSource: Option<nat>): string {
    match dataSource
    case None => "None"
    case Some(n) => Show(n)
  }

  /** The dictionary key: the hash and the data source, separated by a colon. */
  function Key(q: Query): string {
    q.hash + ":" + ShowSource(q.dataSource)
  }

  lemma ShowSourceIsPlain(s: Option<nat>)
    ensures ':' !in ShowSource(s)
  {
    if s.Some? {
      assert AllDigits(Show(s.value));
    }
  }

  /** The last separator decides, so keys are equal exactly for equal hashes and data sources. */
  lemma KeysDistinguish(p: Query, q: Query)
    ensures Key(p) == Key(q) <==> p.hash == q.hash && p.dataSource == q.dataSource
  {
    if Key(p) == Key(q) {
      ShowSourceIsPlain(p.dataSource);
      ShowSourceIsPlain(q.dataSource);
      LastColon(p.hash, ShowSource(p.dataSource), q.hash, ShowSource(q.dataSource));
      match (p.dataSource, q.dataSource)
      case (Some(m), Some(n)) => ShowIsInjective(m, n);
      case (Some(m), None) => assert Show(m)[0] != 'N';
      case (None, Some(n)) => assert Show(n)[0] != 'N';
      case (None, None) =>
    }
  }

  lemma LastColon(a: string, x: string, b: string, y: string)
    requires ':' !in x && ':' !in y && a + ":" + x == b + ":" + y
    ensures a == b && x == y
  {
    var s, t := a + ":" + x, b + ":" + y;
    assert s[|a|] == ':' && t[|b|] == ':';
    assert forall i :: |a| < i < |s| ==> s[i] == x[i - |a| - 1] != ':';
    assert forall i :: |b| < i < |t| ==> t[i] == y[i - |b| - 1] != ':';
    assert |a| == |b|;
    assert a == s[..|a|] && b == t[..|b|];
    assert x == s[|a| + 1..] && y == t[|b| + 1..];
  }

  /** The assignments that the sweep over the queries makes, in order. */
  function Assignments(queries: seq<Query>, executions: map<nat, int>, now: int): seq<(string, Query)> {
    if queries == [] then []
    else
      var last := queries[|queries| - 1];
      Assignments(queries[..|queries| - 1], executions, now) +
        if Outdated(last, executions, now) == Ok(true) then [(Key(last), last)] else []
  }

  /** The assigned queries are due queries of the table, each under its own key. */
  ghost predicate AssignsDue(queries: seq<Query>, executions: map<nat, int>, now: int, a: seq<(string, Query)>) {
    forall i :: 0 <= i < |a| ==>
      a[i].0 == Key(a[i].1) && a[i].1 in queries && Outdated(a[i].1, executions, now) == Ok(true)
  }

  predicate IdsIncrease(a: seq<(string, Query)>) {
    forall i, j :: 0 <= i < j < |a| ==> a[i].1.id < a[j].1.id
  }

  lemma {:induction false} AssignmentsAreDue(queries: seq<Query>, executions: map<nat, int>, now: int)
    ensures AssignsDue(queries, executions, now, Assignments(queries, executions, now))
    decreases |queries|
  {
    hide Outdated, Key;
    if queries != [] {
      var front := queries[..|queries| - 1];
      AssignmentsAreDue(front, executions, now);
      assert forall q :: q in front ==> q in queries;
    }
  }

  lemma {:induction false} AssignmentsIncrease(queries: seq<Query>, executions: map<nat, int>, now: int)
    requires IncreasingIds(queries)
    ensures IdsIncrease(Assignments(queries, executions, now))
    decreases |queries|
  {
    hide Outdated, Key;
    if queries != [] {
      var front, last := queries[..|queries| - 1], queries[|queries| - 1];
      AssignmentsIncrease(front, executions, now);
      AssignmentsAreDue(front, executions, now);
      var a := Assignments(front, executions, now);
      forall i | 0 <= i < |a|
        ensures a[i].1.id < last.id
      {
        var k :| 0 <= k < |front| && front[k] == a[i].1;
        assert queries[k] == front[k];
      }
    }
  }

  lemma {:induction false} DueIsAssigned(queries: seq<Query>, executions: map<nat, int>, now: int, i: nat)
    requires i < |queries| && Outdated(queries[i], executions, now) == Ok(true)
    ensures (Key(queries[i]), queries[i]) in Assignments(queries, executions, now)
    decreases |queries|
  {
    hide Outdated, Key;
    if i < |queries| - 1 {
      DueIsAssigned(queries[..|queries| - 1], executions, now, i);
    }
  }

  predicate SameTarget(p: Query, q: Query) {
    p.hash == q.hash && p.dataSource == q.dataSource
  }

  /**
   * What the sweep promises: it returns due queries, one for every pair of hash and data source that
   * has a due query, and that one has the highest id.
   */
  ghost predicate SweepResult(queries: seq<Query>, executions: map<nat, int>, now: int, result: seq<Query>) {
    && (forall k, l :: 0 <= k < l < |result| ==> !SameTarget(result[k], result[l]))
    && (forall k :: 0 <= k < |result| ==>
         result[k] in queries && Outdated(result[k], executions, now) == Ok(true))
    && (forall q :: q in queries && Outdated(q, executions, now) == Ok(true) ==>
         exists k :: 0 <= k < |result| && SameTarget(result[k], q) && q.id <= result[k].id)
  }

  predicate IncreasingIds(queries: seq<Query>) {
    forall i, j :: 0 <= i < j < |queries| ==> queries[i].id < queries[j].id
  }

  function Values(d: seq<(string, Query)>): (r: seq<Query>)
    ensures |r| == |d| && forall k :: 0 <= k < |d| ==> r[k] == d[k].1
  {
    seq(|d|, k requires 0 <= k < |d| => d[k].1)
  }

  /** The value collected for a due query's key is a query of the same target with at least its id. */
  lemma BestForTarget(queries: seq<Query>, executions: map<nat, int>, now: int, i: nat, picked: seq<int>)
    returns (k: int)
    requires IncreasingIds(queries) && i < |queries| && Outdated(queries[i], executions, now) == Ok(true)
    requires var a := Assignments(queries, executions, now);
      Picks(a, Collect(a), picked) && Covers(a, Collect(a))
    ensures var d := Collect(Assignments(queries, executions, now));
      0 <= k < |d| && SameTarget(d[k].1, queries[i]) && queries[i].id <= d[k].1.id
  {
    hide Outdated, Key, Collect, Assignments;
    var a, q := Assignments(queries, executions, now), queries[i];
    AssignmentsAreDue(queries, executions, now);
    AssignmentsIncrease(queries, executions, now);
    DueIsAssigned(queries, executions, now, i);
    var n :| 0 <= n < |a| && a[n] == (Key(q), q);
    assert HasKey(Collect(a), a[n].0);
    k :| 0 <= k < |Collect(a)| && Collect(a)[k].0 == Key(q);
    assert IsLast(a, picked[k]) && n <= picked[k];
    KeysDistinguish(a[picked[k]].1, q);
  }

  lemma CollectedIsSweepResult(queries: seq<Query>, executions: map<nat, int>, now: int)
    requires IncreasingIds(queries)
    ensures SweepResult(queries, executions, now, Values(Collect(Assignments(queries, executions, now))))
  {
    hide Outdated, Key, Collect, Assignments;
    var a := Assignments(queries, executions, now);
    var d := Collect(a);
    var result := Values(d);
    AssignmentsAreDue(queries, executions, now);
    var picked := CollectKeepsLast(a);
    assert forall k :: 0 <= k < |d| ==> IsLast(a, picked[k]) && d[k] == a[picked[k]];
    forall k, l | 0 <= k < l < |result|
      ensures !SameTarget(result[k], result[l])
    {
      KeysDistinguish(result[k], result[l]);
    }
    forall i | 0 <= i < |queries| && Outdated(queries[i], executions, now) == Ok(true)
      ensures exists k :: 0 <= k < |result| && SameTarget(result[k], queries[i]) && queries[i].id <= result[k].id
    {
      var k := BestForTarget(queries, executions, now, i, picked);
      assert result[k] == d[k].1;
    }
  }

  /** The sweep over the scheduled queries in id order; an error in one plan aborts it. */
  method Sweep(queries: seq<Query>, executions: map<nat, int>, now: int) returns (r: Result<seq<Query>>)
    requires IncreasingIds(queries)
    ensures r.Err? <==> exists i :: 0 <= i < |queries| && Outdated(queries[i], executions, now).Err?
    ensures r.Ok? ==> SweepResult(queries, executions, now, r.value)
  {
    hide Outdated, Put, SweepResult, Key, Collect, Assignments;
    var outdatedQueries: seq<(string, Query)> := [];
    NothingAssigned(executions, now);
    for n := 0 to |queries|
      invariant forall i :: 0 <= i < n ==> Outdated(queries[i], executions, now).Ok?
      invariant outdatedQueries == Collect(Assignments(queries[..n], executions, now))
    {
      var query := queries[n];
      AssignOneMore(queries, executions, now, n);
      var due := Outdated(query, executions, now);
      if due.Err? {
        return Err(due.error);
      }
      if due.value {
        outdatedQueries := Put(outdatedQueries, Key(query), query);
      }
    }
    assert queries[..|queries|] == queries;
    CollectedIsSweepResult(queries, executions, now);
    r := Ok(Values(outdatedQueries));
  }

  lemma NothingAssigned(executions: map<nat, int>, now: int)
    ensures Collect(Assignments([], executions, now)) == []
  {
  }

  lemma AssignOneMore(queries: seq<Query>, executions: map<nat, int>, now: int, n: nat)
    requires n < |queries|
    ensures var before, q := Assignments(queries[..n], executions, now), queries[n];
      Collect(Assignments(queries[..n + 1], executions, now)) ==
        if Outdated(q, executions, now) == Ok(true) then Put(Collect(before), Key(q), q) else Collect(before)
  {
    hide Outdated, Key, Put;
    var more, before, q := queries[..n + 1], Assignments(queries[..n], executions, now), queries[n];
    assert more[..n] == queries[..n] && more[n] == q;
    assert before + [] == before;
    assert (before + [(Key(q), q)])[..|before|] == before;
  }

  /** A query that never ran counts from now, so the sweep never takes it, whatever its failures. */
  lemma NeverRunIsNeverTaken(q: Query, executions: map<nat, int>, now: int)
    requires InRange(now) && q.id !in executions && q.latest.None?
    requires ValidSchedule(q.schedule.interval, q.schedule.time, q.schedule.day)
    ensures Outdated(q, executions, now) != Ok(true)
  {
    NotDueAtOwnRun(now, q.schedule.interval, q.schedule.time, q.schedule.day, q.failures);
  }

  /** A query in the result stays due at any later instant before its expiry, if its state is unchanged. */
  lemma StaysOutdated(q: Query, executions: map<nat, int>, now: int, later: int)
    requires InRange(now) && InRange(later) && now <= later && !Expired(q, later)
    requires q.id in executions || q.latest.Some?
    requires Outdated(q, executions, now) == Ok(true)
    ensures Outdated(q, executions, later) == Ok(true)
  {
    DueIsMonotone(PreviousRun(q, executions, now), now, later,
                  q.schedule.interval, q.schedule.time, q.schedule.day, q.failures, q.failures);
  }

  // ----- Selection in plain numbers -----

  /** The last run of a query: the recorded execution before the latest result, and now without either. */
  predicate RanLast(q: Query, executions: map<nat, int>, now: int, last: int) {
    && (q.id in executions ==> executions[q.id] == last)
    && (q.id !in executions && q.latest.Some? ==> q.latest.value == last)
    && (q.id !in executions && q.latest.None? ==> now == last)
  }

  /**
   * A query with a plain interval is selected exactly when it has not expired and more than the
   * interval, and 2^failures minutes after failures, has passed since its last run.
   */
  lemma PlainSelectionExactly(q: Query, executions: map<nat, int>, now: int, last: int, interval: int)
    requires q.schedule.interval == Some(interval) && q.schedule.time.None?
    requires InRange(now) && RanLast(q, executions, now, last) && InRange(last + interval * 1_000_000)
    ensures Outdated(q, executions, now) == Ok(
              && (q.schedule.until.Some? ==> now < q.schedule.until.value)
              && now - last > interval * 1_000_000 + if q.failures == 0 then 0 else Pow(2, q.failures) * 60_000_000)
  {
    PlainDueExactly(last, now, interval, q.schedule.day, q.failures);
  }

  /** With any schedule: it has an interval, has not expired, and now is past its plan and its backoff. */
  lemma SelectionExactly(q: Query, executions: map<nat, int>, now: int, last: int)
    requires InRange(now) && RanLast(q, executions, now, last)
    ensures Outdated(q, executions, now) == Ok(true) <==>
      && q.schedule.interval.Some?
      && (q.schedule.until.Some? ==> now < q.schedule.until.value)
      && var next := NextIteration(last, q.schedule.interval, q.schedule.time, q.schedule.day);
         next.Ok? && now > next.value + Backoff(q.failures)
  {
    hide NextIteration, ShouldScheduleNext, Backoff;
    DueExactly(last, now, q.schedule.interval, q.schedule.time, q.schedule.day, q.failures);
  }

  /** A query without an interval and an expired one are skipped, whatever else their schedule holds. */
  lemma SkippedQuery(q: Query, executions: map<nat, int>, now: int)
    requires q.schedule.interval.None? || (q.schedule.until.Some? && q.schedule.until.value <= now)
    ensures Outdated(q, executions, now) == Ok(false)
  {
  }
}
