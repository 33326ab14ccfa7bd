// The per-tenant result cache behind the tenant endpoint.

module TenantCache {
  import opened Outcomes
  import opened Scheduler

  /** A stored query result. */
  datatype Row = Row(hash: string, tenant: int, retrievedAt: int, queryText: string, data: string)

  datatype Plan = Plan(interval: Option<int>, time: Option<TimeOfDay>, day: Option<DayName>)

  /** What the handler reads of the query: its schedule may be absent. */
  datatype Query = Query(hash: string, text: string, plan: Option<Plan>, failures: nat)

  /**
   * One request, with what it gets from outside: the clock when the newest row is judged, the clock
   * when a new row is stored, and the data the query runner returns if it is run.
   */
  datatype Request = Request(query: Query, tenant: int, checkedAt: int, storedAt: int, data: string)

  predicate Matches(row: Row, hash: string, tenant: int) {
    row.hash == hash && row.tenant == tenant
  }

  /** Row i is a newest one for the hash and the tenant; among equally new rows any may be served. */
  ghost predicate IsNewest(rows: seq<Row>, hash: string, tenant: int, i: int) {
    && 0 <= i < |rows| && Matches(rows[i], hash, tenant)
    && forall j :: 0 <= j < |rows| && Matches(rows[j], hash, tenant) ==> rows[j].retrievedAt <= rows[i].retrievedAt
  }

  ghost predicate HasRow(rows: seq<Row>, hash: string, tenant: int) {
    exists i :: 0 <= i < |rows| && Matches(rows[i], hash, tenant)
  }

  /** Whether a row of the given age must be recomputed for the query. */
  function Stale(row: Row, query: Query, now: int): Result<bool> {
    match query.plan
    case None => Ok(false)
    case Some(p) => ShouldScheduleNext(row.retrievedAt, now, p.interval, p.time, p.day, query.failures)
  }

  function FreshRow(q: Request): Row {
    Row(q.query.hash, q.tenant, q.storedAt, q.query.text, q.data)
  }

  /** One request against the table: a miss stores a fresh row, a hit changes nothing. */
  ghost predicate Served(before: seq<Row>, q: Request, after: seq<Row>, reply: Result<Row>) {
    if !HasRow(before, q.query.hash, q.tenant) then
      after == before + [FreshRow(q)] && reply == Ok(FreshRow(q))
    else
      exists i :: IsNewest(before, q.query.hash, q.tenant, i) &&
        match Stale(before[i], q.query, q.checkedAt)
        case Err(e) => after == before && reply == Err(e)
        case Ok(false) => after == before && reply == Ok(before[i])
        case Ok(true) => after == before + [FreshRow(q)] && reply == Ok(FreshRow(q))
  }

  class QueryResults {
    var rows: seq<Row>

    constructor ()
      ensures rows == []
    {
      rows := [];
    }

    /** The newest row for the hash and the tenant, if there is one. */
    method GetByQueryHashAndTenant(hash: string, tenant: int) returns (found: Option<Row>)
      ensures found.None? ==> !HasRow(rows, hash, tenant)
      ensures found.Some? ==> exists i :: IsNewest(rows, hash, tenant, i) && rows[i] == found.value
    {
      found := None;
      ghost var at := -1;
      for n := 0 to |rows|
        invariant found.None? ==> forall j :: 0 <= j < n ==> !Matches(rows[j], hash, tenant)
        invariant found.Some? ==>
          && 0 <= at < n && rows[at] == found.value && Matches(rows[at], hash, tenant)
          && forall j :: 0 <= j < n && Matches(rows[j], hash, tenant) ==> rows[j].retrievedAt <= rows[at].retrievedAt
      {
        if Matches(rows[n], hash, tenant) && (found.None? || found.value.retrievedAt < rows[n].retrievedAt) {
          found, at := Some(rows[n]), n;
        }
      }
      assert found.Some? ==> IsNewest(rows, hash, tenant, at);
    }

    method StoreResult(hash: string, text: string, data: string, retrievedAt: int, tenant: int) returns (row: Row)
      modifies this
      ensures row == Row(hash, tenant, retrievedAt, text, data) && rows == old(rows) + [row]
    {
      row := Row(hash, tenant, retrievedAt, text, data);
      rows := rows + [row];
    }

    method Get(q: Request) returns (reply: Result<Row>)
      modifies this
      ensures Served(old(rows), q, rows, reply)
    {
      var queryResult := GetByQueryHashAndTenant(q.query.hash, q.tenant);
      var recompute := queryResult.None?;
      if queryResult.Some? && q.query.plan.Some? {
        var p := q.query.plan.value;
        var due := ShouldScheduleNext(queryResult.value.retrievedAt, q.checkedAt,
                                      p.interval, p.time, p.day, q.query.failures);
        if due.Err? {
          return Err(due.error);
        }
        recompute := due.value;
      }
      if recompute {
        var row := StoreResult(q.query.hash, q.query.text, q.data, q.storedAt, q.tenant);
        reply := Ok(row);
      } else {
        reply := Ok(queryResult.value);
      }
    }
  }
}
