// What holds over every run of requests against the tenant cache.

module TenantCacheRuns {
  import opened Outcomes
  import opened Fermat
  import opened Scheduler
  import opened TenantCache

  /** tables[n] is the table before request n, and replies[n] what that request gets. */
  ghost predicate Run(tables: seq<seq<Row>>, qs: seq<Request>, replies: seq<Result<Row>>) {
    && |tables| == |qs| + 1 && |replies| == |qs|
    && forall n :: 0 <= n < |qs| ==> Served(tables[n], qs[n], tables[n + 1], replies[n])
  }

  /** The clock never runs backwards, and no stored row comes from the future. */
  ghost predicate Timed(start: seq<Row>, qs: seq<Request>) {
    && (forall n :: 0 <= n < |qs| ==>
         InRange(qs[n].checkedAt) && InRange(qs[n].storedAt) && qs[n].checkedAt <= qs[n].storedAt)
    && (forall m, n :: 0 <= m < n < |qs| ==> qs[m].storedAt <= qs[n].checkedAt)
    && (forall i, n :: 0 <= i < |start| && 0 <= n < |qs| ==> start[i].retrievedAt <= qs[n].checkedAt)
  }

  predicate Concerns(q: Request, hash: string, tenant: int) {
    q.query.hash == hash && q.tenant == tenant
  }

  // ----- Safety of one step -----

  /** No tenant ever sees another tenant's row, nor another query's. */
  lemma ReplyIsOwn(before: seq<Row>, q: Request, after: seq<Row>, reply: Result<Row>)
    requires Served(before, q, after, reply) && reply.Ok?
    ensures Matches(reply.value, q.query.hash, q.tenant) && reply.value in after
  {
    if !HasRow(before, q.query.hash, q.tenant) {
      assert after[|before|] == FreshRow(q);
    } else {
      var i :| IsNewest(before, q.query.hash, q.tenant, i) &&
        match Stale(before[i], q.query, q.checkedAt)
        case Err(e) => after == before && reply == Err(e)
        case Ok(false) => after == before && reply == Ok(before[i])
        case Ok(true) => after == before + [FreshRow(q)] && reply == Ok(FreshRow(q));
      if Stale(before[i], q.query, q.checkedAt) == Ok(true) {
        assert after[|before|] == FreshRow(q);
      }
    }
  }

  /** The query runs only on a miss, or when the newest row is due for recomputation. */
  lemma RunsOnlyWhenDue(before: seq<Row>, q: Request, after: seq<Row>, reply: Result<Row>)
    requires Served(before, q, after, reply)
    ensures after == before || after == before + [FreshRow(q)]
    ensures after != before && HasRow(before, q.query.hash, q.tenant) ==>
      q.query.plan.Some? &&
      exists i :: IsNewest(before, q.query.hash, q.tenant, i) && Stale(before[i], q.query, q.checkedAt) == Ok(true)
  {
  }

  /** Judging any newest row gives the same verdict, so ties do not matter. */
  lemma NewestAgree(rows: seq<Row>, q: Query, tenant: int, now: int, i: int, j: int)
    requires IsNewest(rows, q.hash, tenant, i) && IsNewest(rows, q.hash, tenant, j)
    ensures Stale(rows[i], q, now) == Stale(rows[j], q, now)
  {
  }

  ghost predicate ValidPlan(q: Query) {
    q.plan.Some? ==> ValidSchedule(q.plan.value.interval, q.plan.value.time, q.plan.value.day)
  }

  /** After an answered request the newest row is not due at that instant. */
  lemma FreshAfterReply(before: seq<Row>, q: Request, after: seq<Row>, reply: Result<Row>, i: int)
    requires Served(before, q, after, reply) && reply.Ok? && ValidPlan(q.query)
    requires InRange(q.storedAt)
    requires forall j :: 0 <= j < |before| ==> before[j].retrievedAt <= q.storedAt
    requires IsNewest(after, q.query.hash, q.tenant, i)
    ensures Stale(after[i], q.query, if after == before then q.checkedAt else q.storedAt) != Ok(true)
  {
    if after != before {
      RunsOnlyWhenDue(before, q, after, reply);
      assert after[|before|] == FreshRow(q) && Matches(after[|before|], q.query.hash, q.tenant);
      assert after[i].retrievedAt == q.storedAt;
      if q.query.plan.Some? {
        var p := q.query.plan.value;
        NotDueAtOwnRun(q.storedAt, p.interval, p.time, p.day, q.query.failures);
      }
    } else {
      GrownIsDifferent(before, FreshRow(q));
      var k :| IsNewest(before, q.query.hash, q.tenant, k) &&
        match Stale(before[k], q.query, q.checkedAt)
        case Err(e) => after == before && reply == Err(e)
        case Ok(false) => after == before && reply == Ok(before[k])
        case Ok(true) => after == before + [FreshRow(q)] && reply == Ok(FreshRow(q));
      NewestAgree(before, q.query, q.tenant, q.checkedAt, k, i);
    }
  }

  lemma GrownIsDifferent(rows: seq<Row>, row: Row)
    ensures rows + [row] != rows
  {
    assert |rows + [row]| == |rows| + 1;
  }

  /** Asking again at the same instant changes nothing. */
  lemma RepeatIsHit(before: seq<Row>, q: Request, after: seq<Row>, reply: Result<Row>,
                    again: Request, final: seq<Row>, second: Result<Row>)
    requires Served(before, q, after, reply) && reply.Ok? && ValidPlan(q.query) && InRange(q.storedAt)
    requires forall j :: 0 <= j < |before| ==> before[j].retrievedAt <= q.storedAt
    requires again.query == q.query && again.tenant == q.tenant
    requires again.checkedAt == if after == before then q.checkedAt else q.storedAt
    requires Served(after, again, final, second)
    ensures final == after
  {
    ReplyIsOwn(before, q, after, reply);
    assert HasRow(after, q.query.hash, q.tenant);
    if final != after {
      RunsOnlyWhenDue(after, again, final, second);
      var i :| IsNewest(after, q.query.hash, q.tenant, i) && Stale(after[i], again.query, again.checkedAt) == Ok(true);
      FreshAfterReply(before, q, after, reply, i);
    }
  }

  // ----- Safety of whole runs -----

  /** The table only grows: what was stored stays where it was. */
  lemma {:induction false} TableGrows(tables: seq<seq<Row>>, qs: seq<Request>, replies: seq<Result<Row>>, m: nat,
                                      n: nat)
    requires Run(tables, qs, replies) && m <= n <= |qs|
    ensures tables[m] <= tables[n]
    decreases n
  {
    if m < n {
      TableGrows(tables, qs, replies, m, n - 1);
      RunsOnlyWhenDue(tables[n - 1], qs[n - 1], tables[n], replies[n - 1]);
    }
  }

  /** Every stored row is older than every later reading of the clock. */
  lemma {:induction false} RowsAreOlder(tables: seq<seq<Row>>, qs: seq<Request>, replies: seq<Result<Row>>, n: nat)
    requires Run(tables, qs, replies) && n < |qs| && Timed(tables[0], qs)
    ensures forall i :: 0 <= i < |tables[n]| ==> tables[n][i].retrievedAt <= qs[n].checkedAt
    decreases n
  {
    if n > 0 {
      RowsAreOlder(tables, qs, replies, n - 1);
      RunsOnlyWhenDue(tables[n - 1], qs[n - 1], tables[n], replies[n - 1]);
    }
  }

  function Count(rows: seq<Row>, hash: string, tenant: int): nat {
    if rows == [] then 0
    else Count(rows[..|rows| - 1], hash, tenant) + if Matches(rows[|rows| - 1], hash, tenant) then 1 else 0
  }

  lemma {:induction false} CountIsPresence(rows: seq<Row>, hash: string, tenant: int)
    ensures Count(rows, hash, tenant) > 0 <==> HasRow(rows, hash, tenant)
    decreases |rows|
  {
    if rows != [] {
      var front := rows[..|rows| - 1];
      CountIsPresence(front, hash, tenant);
      if HasRow(front, hash, tenant) {
        var i :| 0 <= i < |front| && Matches(front[i], hash, tenant);
        assert Matches(rows[i], hash, tenant);
      }
      if HasRow(rows, hash, tenant) && !Matches(rows[|rows| - 1], hash, tenant) {
        var i :| 0 <= i < |rows| && Matches(rows[i], hash, tenant);
        assert Matches(front[i], hash, tenant);
      }
    }
  }

  /**
   * Without a schedule a query runs at most once per tenant: rows that are there at the start stay
   * the only ones, and otherwise the first request stores the only one.
   */
  lemma {:induction false} RunsOnceWithoutPlan(tables: seq<seq<Row>>, qs: seq<Request>, replies: seq<Result<Row>>,
                                               hash: string, tenant: int, n: nat)
    requires Run(tables, qs, replies) && n <= |qs|
    requires forall m :: 0 <= m < |qs| && Concerns(qs[m], hash, tenant) ==> qs[m].query.plan.None?
    ensures Count(tables[n], hash, tenant) ==
      if Count(tables[0], hash, tenant) > 0 then Count(tables[0], hash, tenant)
      else if AskedFor(qs, hash, tenant, n) then 1 else 0
    decreases n
  {
    hide Served, Count;
    if n > 0 {
      RunsOnceWithoutPlan(tables, qs, replies, hash, tenant, n - 1);
      assert Served(tables[n - 1], qs[n - 1], tables[n], replies[n - 1]);
      OneRequestWithoutPlan(tables[n - 1], qs[n - 1], tables[n], replies[n - 1], hash, tenant);
      assert AskedFor(qs, hash, tenant, n) <==> AskedFor(qs, hash, tenant, n - 1) || Concerns(qs[n - 1], hash, tenant);
    }
  }

  /** One of the first n requests asks for this query and tenant. */
  ghost predicate AskedFor(qs: seq<Request>, hash: string, tenant: int, n: nat) {
    exists m :: 0 <= m < n <= |qs| && Concerns(qs[m], hash, tenant)
  }

  lemma OneRequestWithoutPlan(before: seq<Row>, q: Request, after: seq<Row>, reply: Result<Row>, hash: string,
                              tenant: int)
    requires Served(before, q, after, reply) && (Concerns(q, hash, tenant) ==> q.query.plan.None?)
    ensures Count(after, hash, tenant) ==
      if Concerns(q, hash, tenant) && Count(before, hash, tenant) == 0 then 1 else Count(before, hash, tenant)
  {
    hide Stale;
    RunsOnlyWhenDue(before, q, after, reply);
    CountIsPresence(before, hash, tenant);
    if after != before {
      assert after[..|after| - 1] == before;
    }
  }

  /** A row beyond the initial ones was stored by one request, from what was then the whole table. */
  lemma {:induction false} WhoStored(tables: seq<seq<Row>>, qs: seq<Request>, replies: seq<Result<Row>>, p: nat, k: nat)
    returns (n: nat)
    requires Run(tables, qs, replies) && k <= |qs| && |tables[0]| <= p < |tables[k]|
    ensures n < k && |tables[n]| == p && tables[n + 1] == tables[n] + [FreshRow(qs[n])]
    ensures tables[k][p] == FreshRow(qs[n])
    decreases k
  {
    RunsOnlyWhenDue(tables[k - 1], qs[k - 1], tables[k], replies[k - 1]);
    if p < |tables[k - 1]| {
      n := WhoStored(tables, qs, replies, p, k - 1);
    } else {
      n := k - 1;
    }
  }

  /** All requests for the pair carry this plan. */
  ghost predicate PlannedBy(qs: seq<Request>, hash: string, tenant: int, plan: Plan) {
    forall m :: 0 <= m < |qs| && Concerns(qs[m], hash, tenant) ==> qs[m].query.plan == Some(plan)
  }

  /**
   * Between two rows of a scheduled query, the later one stored during the run, lies a planned run:
   * the one that follows some row not older than the first.
   */
  lemma PlanBetween(tables: seq<seq<Row>>, qs: seq<Request>, replies: seq<Result<Row>>,
                    hash: string, tenant: int, plan: Plan, p: nat, p': nat) returns (run: int)
    requires Run(tables, qs, replies) && Timed(tables[0], qs) && PlannedBy(qs, hash, tenant, plan)
    requires p < p' && |tables[0]| <= p' < |tables[|qs|]|
    requires Matches(tables[|qs|][p], hash, tenant) && Matches(tables[|qs|][p'], hash, tenant)
    ensures tables[|qs|][p].retrievedAt <= run
    ensures var next := NextIteration(run, plan.interval, plan.time, plan.day);
      next.Ok? && next.value < tables[|qs|][p'].retrievedAt
  {
    hide Stale, NextIteration, Served;
    var n := WhoStored(tables, qs, replies, p', |qs|);
    TableGrows(tables, qs, replies, n, |qs|);
    var before, q := tables[n], qs[n];
    assert before[p] == tables[|qs|][p];
    assert HasRow(before, hash, tenant);
    GrownIsDifferent(before, FreshRow(q));
    RunsOnlyWhenDue(before, q, tables[n + 1], replies[n]);
    var i :| IsNewest(before, hash, tenant, i) && Stale(before[i], q.query, q.checkedAt) == Ok(true);
    run := before[i].retrievedAt;
    StaleIsPastPlan(before[i], q.query, q.checkedAt, plan);
  }

  lemma StaleIsPastPlan(row: Row, query: Query, now: int, plan: Plan)
    requires InRange(now) && query.plan == Some(plan) && Stale(row, query, now) == Ok(true)
    ensures var next := NextIteration(row.retrievedAt, plan.interval, plan.time, plan.day);
      next.Ok? && next.value < now
  {
    DueExactly(row.retrievedAt, now, plan.interval, plan.time, plan.day, query.failures);
    PowerIsPositive(query.failures);
  }

  /** With a plain interval two runs of a query for one tenant are more than the interval apart. */
  lemma IntervalSpacing(tables: seq<seq<Row>>, qs: seq<Request>, replies: seq<Result<Row>>,
                        hash: string, tenant: int, interval: int, day: Option<DayName>, p: nat, p': nat)
    requires Run(tables, qs, replies) && Timed(tables[0], qs)
    requires PlannedBy(qs, hash, tenant, Plan(Some(interval), None, day))
    requires p < p' && |tables[0]| <= p' < |tables[|qs|]|
    requires Matches(tables[|qs|][p], hash, tenant) && Matches(tables[|qs|][p'], hash, tenant)
    ensures tables[|qs|][p'].retrievedAt > tables[|qs|][p].retrievedAt + interval * SECOND
  {
    var run := PlanBetween(tables, qs, replies, hash, tenant, Plan(Some(interval), None, day), p, p');
  }

  /** With a time of day every k days, the scheduled time strikes between any two runs. */
  lemma DailySpacing(tables: seq<seq<Row>>, qs: seq<Request>, replies: seq<Result<Row>>,
                     hash: string, tenant: int, k: int, at: TimeOfDay, p: nat, p': nat) returns (strike: int)
    requires Run(tables, qs, replies) && Timed(tables[0], qs) && k >= 1 && at.Valid()
    requires PlannedBy(qs, hash, tenant, Plan(Some(k * 86400), Some(at), None))
    requires p < p' && |tables[0]| <= p' < |tables[|qs|]|
    requires Matches(tables[|qs|][p], hash, tenant) && Matches(tables[|qs|][p'], hash, tenant)
    ensures ShowsTime(strike, at)
    ensures tables[|qs|][p].retrievedAt + (k - 1) * DAY < strike < tables[|qs|][p'].retrievedAt
  {
    var run := PlanBetween(tables, qs, replies, hash, tenant, Plan(Some(k * 86400), Some(at), None), p, p');
    strike := NextIteration(run, Some(k * 86400), Some(at), None).value;
    DailyPlan(run, k, at, strike);
  }

  /** Hence the load is bounded: c runs during a run of requests take more than c - 1 intervals. */
  lemma {:induction false} LoadBound(tables: seq<seq<Row>>, qs: seq<Request>, replies: seq<Result<Row>>,
                                     hash: string, tenant: int, interval: int, day: Option<DayName>, first: nat, p: nat)
    requires Run(tables, qs, replies) && Timed(tables[0], qs) && interval >= 0
    requires PlannedBy(qs, hash, tenant, Plan(Some(interval), None, day))
    requires |tables[0]| <= first <= p < |tables[|qs|]|
    requires Matches(tables[|qs|][first], hash, tenant) && Matches(tables[|qs|][p], hash, tenant)
    ensures var rows := tables[|qs|];
      (Count(rows[first..p + 1], hash, tenant) - 1) * (interval * SECOND) <=
      rows[p].retrievedAt - rows[first].retrievedAt
    decreases p
  {
    hide Timed, PlannedBy, Count, Matches;
    var rows := tables[|qs|];
    CountLast(rows, hash, tenant, first, p);
    if first == p {
      assert rows[first..p] == [];
      assert Count([], hash, tenant) == 0 by {
        CountNothing(hash, tenant);
      }
    } else {
      var j := LastMatch(rows, hash, tenant, first, p);
      LoadBound(tables, qs, replies, hash, tenant, interval, day, first, j);
      IntervalSpacing(tables, qs, replies, hash, tenant, interval, day, j, p);
      var c, step := Count(rows[first..j + 1], hash, tenant), interval * SECOND;
      assert (c + 1 - 1) * step == (c - 1) * step + step;
    }
  }

  /** The last matching row before p, from a matching row on; none is counted in between. */
  lemma {:induction false} LastMatch(rows: seq<Row>, hash: string, tenant: int, first: nat, p: nat) returns (j: nat)
    requires first < p <= |rows| && Matches(rows[first], hash, tenant)
    ensures first <= j < p && Matches(rows[j], hash, tenant)
    ensures Count(rows[first..j + 1], hash, tenant) == Count(rows[first..p], hash, tenant)
    decreases p
  {
    hide Count, Matches;
    if Matches(rows[p - 1], hash, tenant) {
      j := p - 1;
    } else {
      j := LastMatch(rows, hash, tenant, first, p - 1);
      CountLast(rows, hash, tenant, first, p - 1);
    }
  }

  lemma CountNothing(hash: string, tenant: int)
    ensures Count([], hash, tenant) == 0
  {
  }

  /** The count of a window of rows, one row further. */
  lemma CountLast(rows: seq<Row>, hash: string, tenant: int, first: nat, p: nat)
    requires first <= p < |rows|
    ensures Count(rows[first..p + 1], hash, tenant) ==
            Count(rows[first..p], hash, tenant) + if Matches(rows[p], hash, tenant) then 1 else 0
  {
    var window, n := rows[first..p + 1], p - first;
    assert |window| == n + 1 && window[n] == rows[p];
    assert window[..n] == rows[first..p];
  }

  // ----- What is served -----

  /** A request that runs the query stores and serves what the runner returned, at the store's clock. */
  lemma MissServesTheRun(before: seq<Row>, q: Request, after: seq<Row>, reply: Result<Row>)
    requires Served(before, q, after, reply) && after != before
    ensures reply.Ok? && after == before + [reply.value]
    ensures reply.value.data == q.data && reply.value.queryText == q.query.text
    ensures reply.value.hash == q.query.hash && reply.value.tenant == q.tenant
    ensures reply.value.retrievedAt == q.storedAt
  {
    hide Stale;
  }

  /** A request that does not run the query serves a row of the table that is as new as any, or raises. */
  lemma HitServesNewest(before: seq<Row>, q: Request, after: seq<Row>, reply: Result<Row>)
    requires Served(before, q, after, reply) && after == before && reply.Ok?
    ensures exists i :: IsNewest(before, q.query.hash, q.tenant, i) && reply.value == before[i]
  {
    hide Stale;
    GrownIsDifferent(before, FreshRow(q));
  }

  /** The row carries what the request's run returned. */
  predicate CameFrom(row: Row, q: Request) {
    && row.hash == q.query.hash && row.tenant == q.tenant
    && row.queryText == q.query.text && row.data == q.data && row.retrievedAt == q.storedAt
  }

  lemma {:induction false} RowsHaveASource(tables: seq<seq<Row>>, qs: seq<Request>, replies: seq<Result<Row>>,
                                           n: nat, p: nat)
    requires Run(tables, qs, replies) && n <= |qs| && p < |tables[n]|
    ensures tables[n][p] in tables[0] || exists m :: 0 <= m < n && CameFrom(tables[n][p], qs[m])
    decreases n
  {
    hide Served;
    if n > 0 {
      assert Served(tables[n - 1], qs[n - 1], tables[n], replies[n - 1]);
      if tables[n] == tables[n - 1] || p < |tables[n - 1]| {
        RunsOnlyWhenDue(tables[n - 1], qs[n - 1], tables[n], replies[n - 1]);
        RowsHaveASource(tables, qs, replies, n - 1, p);
      } else {
        MissServesTheRun(tables[n - 1], qs[n - 1], tables[n], replies[n - 1]);
        assert CameFrom(tables[n][p], qs[n - 1]);
      }
    }
  }

  /**
   * Over any run an answer was in the table at the start, or carries the text, the data and the time
   * of the run of this or an earlier request for the same query and tenant.
   */
  lemma AnswersHaveASource(tables: seq<seq<Row>>, qs: seq<Request>, replies: seq<Result<Row>>, n: nat)
    requires Run(tables, qs, replies) && n < |qs| && replies[n].Ok?
    ensures replies[n].value in tables[0] ||
            exists m :: 0 <= m <= n && CameFrom(replies[n].value, qs[m]) &&
                        Concerns(qs[m], qs[n].query.hash, qs[n].tenant)
  {
    hide Served;
    assert Served(tables[n], qs[n], tables[n + 1], replies[n]);
    ReplyIsOwn(tables[n], qs[n], tables[n + 1], replies[n]);
    var p :| 0 <= p < |tables[n + 1]| && tables[n + 1][p] == replies[n].value;
    RowsHaveASource(tables, qs, replies, n + 1, p);
  }

  // ----- A run that is due does take place -----

  /** The delay that failures add to a plan, in microseconds. */
  function Delay(failures: nat): int {
    if failures == 0 then 0 else Pow(2, failures) * 60_000_000
  }

  /**
   * With a plain interval, a request runs the query exactly when there is no row for it, or when more
   * than the interval and the delay for failures has passed since the newest one.
   */
  lemma PlainRequestRunsExactly(before: seq<Row>, q: Request, after: seq<Row>, reply: Result<Row>, i: int,
                                interval: int, day: Option<DayName>)
    requires Served(before, q, after, reply) && q.query.plan == Some(Plan(Some(interval), None, day))
    requires InRange(q.checkedAt) && IsNewest(before, q.query.hash, q.tenant, i)
    requires InRange(before[i].retrievedAt + interval * 1_000_000)
    ensures reply.Ok?
    ensures after != before <==>
            q.checkedAt - before[i].retrievedAt > interval * 1_000_000 + Delay(q.query.failures)
  {
    PlainDueExactly(before[i].retrievedAt, q.checkedAt, interval, day, q.query.failures);
    var due := q.checkedAt - before[i].retrievedAt > interval * 1_000_000 + Delay(q.query.failures);
    assert Stale(before[i], q.query, q.checkedAt) == Ok(due);
    ServedByVerdict(before, q, after, reply, i);
  }

  /** The verdict on any newest row decides what a request does. */
  lemma ServedByVerdict(before: seq<Row>, q: Request, after: seq<Row>, reply: Result<Row>, i: int)
    requires Served(before, q, after, reply) && IsNewest(before, q.query.hash, q.tenant, i)
    ensures match Stale(before[i], q.query, q.checkedAt)
            case Err(e) => after == before && reply == Err(e)
            case Ok(due) => reply.Ok? && (after != before <==> due)
  {
    assert HasRow(before, q.query.hash, q.tenant);
    GrownIsDifferent(before, FreshRow(q));
    var k :| IsNewest(before, q.query.hash, q.tenant, k) &&
      match Stale(before[k], q.query, q.checkedAt)
      case Err(e) => after == before && reply == Err(e)
      case Ok(false) => after == before && reply == Ok(before[k])
      case Ok(true) => after == before + [FreshRow(q)] && reply == Ok(FreshRow(q));
    NewestAgree(before, q.query, q.tenant, q.checkedAt, k, i);
  }

  /**
   * With any schedule a request runs the query exactly when there is no row for it, or when the clock
   * is past the plan that follows the newest row and the delay for failures.
   */
  lemma RequestRunsExactly(before: seq<Row>, q: Request, after: seq<Row>, reply: Result<Row>, i: int)
    requires Served(before, q, after, reply) && InRange(q.checkedAt) && IsNewest(before, q.query.hash, q.tenant, i)
    ensures after != before <==>
      q.query.plan.Some? &&
      (var p := q.query.plan.value;
       var next := NextIteration(before[i].retrievedAt, p.interval, p.time, p.day);
       next.Ok? && q.checkedAt > next.value + Delay(q.query.failures))
    ensures q.query.plan.Some? ==>
      (var p := q.query.plan.value;
       var next := NextIteration(before[i].retrievedAt, p.interval, p.time, p.day);
       if next.Err? then reply == Err(next.error) else reply.Ok?)
  {
    hide NextIteration, ShouldScheduleNext;
    ServedByVerdict(before, q, after, reply, i);
    if q.query.plan.Some? {
      var p := q.query.plan.value;
      DueExactly(before[i].retrievedAt, q.checkedAt, p.interval, p.time, p.day, q.query.failures);
    }
  }

  /**
   * Over any run: a request for a plain schedule that comes later than the interval and the delay
   * after every row of its query and tenant stores and serves a run of its own.
   */
  lemma LateRequestIsServedFresh(tables: seq<seq<Row>>, qs: seq<Request>, replies: seq<Result<Row>>, n: nat,
                                 interval: int, day: Option<DayName>)
    requires Run(tables, qs, replies) && n < |qs| && InRange(qs[n].checkedAt)
    requires qs[n].query.plan == Some(Plan(Some(interval), None, day)) && interval >= 0
    requires forall i :: 0 <= i < |tables[n]| && Matches(tables[n][i], qs[n].query.hash, qs[n].tenant) ==>
               && InRange(tables[n][i].retrievedAt)
               && qs[n].checkedAt - tables[n][i].retrievedAt > interval * 1_000_000 + Delay(qs[n].query.failures)
    ensures replies[n].Ok? && CameFrom(replies[n].value, qs[n])
    ensures tables[n + 1] == tables[n] + [replies[n].value]
  {
    hide Stale, ShouldScheduleNext;
    var before, q := tables[n], qs[n];
    assert Served(before, q, tables[n + 1], replies[n]);
    PowerIsPositive(q.query.failures);
    if HasRow(before, q.query.hash, q.tenant) {
      var i :| IsNewest(before, q.query.hash, q.tenant, i);
      PlainRequestRunsExactly(before, q, tables[n + 1], replies[n], i, interval, day);
    } else {
      GrownIsDifferent(before, FreshRow(q));
    }
    MissServesTheRun(before, q, tables[n + 1], replies[n]);
  }
}
