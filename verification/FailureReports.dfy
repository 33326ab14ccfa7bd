// Aggregated reports of failed scheduled queries.

module FailureReports {
  import opened OrderedDict

  datatype Failure = Failure(id: nat, name: string, message: string, scheduleFailures: nat, failedAt: int)

  /** A row of the e-mail; nearLimit tells whether the notice about the limit is shown. */
  datatype ReportRow = ReportRow(id: nat, name: string, failedAt: int, reason: string, count: nat, nearLimit: bool)

  /** What tracking a failure reads of the query. */
  datatype Query = Query(id: nat, name: string, user: nat, subscribed: bool, userDisabled: bool)

  type Key = (nat, string)

  function KeyOf(f: Failure): Key {
    (f.id, f.message)
  }

  function Occurrences(errors: seq<Failure>, key: Key): nat {
    if errors == [] then 0 else (if KeyOf(errors[0]) == key then 1 else 0) + Occurrences(errors[1..], key)
  }

  function Reversed(errors: seq<Failure>): seq<Failure> {
    if errors == [] then [] else Reversed(errors[1..]) + [errors[0]]
  }

  function Keyed(errors: seq<Failure>): (r: seq<(Key, Failure)>)
    ensures |r| == |errors| && forall i :: 0 <= i < |errors| ==> r[i] == (KeyOf(errors[i]), errors[i])
  {
    seq(|errors|, i requires 0 <= i < |errors| => (KeyOf(errors[i]), errors[i]))
  }

  function Rows(unique: seq<(Key, Failure)>, errors: seq<Failure>, limit: int): (r: seq<ReportRow>)
    ensures |r| == |unique|
    ensures forall k :: 0 <= k < |unique| ==> var f := unique[k].1;
      r[k] == ReportRow(f.id, f.name, f.failedAt, f.message, Occurrences(errors, unique[k].0),
                  4 * f.scheduleFailures > 3 * limit)
  {
    seq(|unique|, k requires 0 <= k < |unique| =>
      var f := unique[k].1;
      ReportRow(f.id, f.name, f.failedAt, f.message, Occurrences(errors, unique[k].0),
                  4 * f.scheduleFailures > 3 * limit))
  }

  /** The report on a list of pending failures, newest first. */
  function Report(pending: seq<Failure>, limit: int): seq<ReportRow> {
    Rows(Collect(Keyed(Reversed(pending))), pending, limit)
  }

  // ----- What a report says -----

  lemma {:induction false} ReversedAt(errors: seq<Failure>, i: nat)
    requires i < |errors|
    ensures |Reversed(errors)| == |errors| && Reversed(errors)[|errors| - 1 - i] == errors[i]
  {
    if |errors| > 1 {
      ReversedAt(errors[1..], if i > 0 then i - 1 else 0);
    }
  }

  /** pending[i] is the newest failure with its key: the list has the newest first. */
  ghost predicate IsNewest(pending: seq<Failure>, i: int) {
    0 <= i < |pending| && forall j :: 0 <= j < i ==> KeyOf(pending[j]) != KeyOf(pending[i])
  }

  lemma LastReversedIsNewest(pending: seq<Failure>, n: int)
    requires IsLast(Keyed(Reversed(pending)), n)
    ensures |Reversed(pending)| == |pending| && IsNewest(pending, |pending| - 1 - n)
    ensures Reversed(pending)[n] == pending[|pending| - 1 - n]
  {
    var r := Reversed(pending);
    if pending != [] {
      ReversedAt(pending, 0);
    }
    var i := |pending| - 1 - n;
    ReversedAt(pending, i);
    forall j | 0 <= j < i
      ensures KeyOf(pending[j]) != KeyOf(pending[i])
    {
      ReversedAt(pending, j);
      assert Keyed(r)[|pending| - 1 - j].0 != Keyed(r)[n].0;
    }
  }

  /** Each row shows the newest failure of its query and message, and how often they occurred. */
  lemma RowShowsNewest(pending: seq<Failure>, limit: int, k: nat) returns (i: int)
    requires k < |Report(pending, limit)|
    ensures IsNewest(pending, i)
    ensures var f := pending[i];
      Report(pending, limit)[k] ==
        ReportRow(f.id, f.name, f.failedAt, f.message, Occurrences(pending, KeyOf(f)),
                  4 * f.scheduleFailures > 3 * limit)
  {
    hide Collect, Reversed, Occurrences;
    var entries := Keyed(Reversed(pending));
    var picked := CollectKeepsLast(entries);
    assert IsLast(entries, picked[k]);
    LastReversedIsNewest(pending, picked[k]);
    i := |pending| - 1 - picked[k];
  }

  /** No two rows are about the same query and message, and every pending failure has its row. */
  lemma RowsPartition(pending: seq<Failure>, limit: int)
    ensures var rows := Report(pending, limit);
      && (forall k, l :: 0 <= k < l < |rows| ==> (rows[k].id, rows[k].reason) != (rows[l].id, rows[l].reason))
      && (forall i :: 0 <= i < |pending| ==>
           exists k :: 0 <= k < |rows| && (rows[k].id, rows[k].reason) == KeyOf(pending[i]))
  {
    hide Collect, Reversed, Occurrences;
    var entries := Keyed(Reversed(pending));
    var d, rows := Collect(entries), Report(pending, limit);
    var picked := CollectKeepsLast(entries);
    forall k | 0 <= k < |d|
      ensures (rows[k].id, rows[k].reason) == d[k].0
    {
      assert IsLast(entries, picked[k]) && d[k] == entries[picked[k]];
    }
    forall i | 0 <= i < |pending|
      ensures exists k :: 0 <= k < |rows| && (rows[k].id, rows[k].reason) == KeyOf(pending[i])
    {
      ReversedAt(pending, i);
      assert HasKey(d, entries[|pending| - 1 - i].0);
    }
  }

  function Total(rows: seq<ReportRow>): nat {
    if rows == [] then 0 else rows[0].count + Total(rows[1..])
  }

  function CountAll(keys: seq<Key>, errors: seq<Failure>): nat {
    if keys == [] then 0 else Occurrences(errors, keys[0]) + CountAll(keys[1..], errors)
  }

  lemma {:induction false} TotalIsCountAll(rows: seq<ReportRow>, keys: seq<Key>, errors: seq<Failure>)
    requires |rows| == |keys| && forall k :: 0 <= k < |rows| ==> rows[k].count == Occurrences(errors, keys[k])
    ensures Total(rows) == CountAll(keys, errors)
    decreases |rows|
  {
    if rows != [] {
      TotalIsCountAll(rows[1..], keys[1..], errors);
    }
  }

  lemma {:induction false} NobodyCounts(keys: seq<Key>)
    ensures CountAll(keys, []) == 0
    decreases |keys|
  {
    if keys != [] {
      NobodyCounts(keys[1..]);
    }
  }

  /** Taking the first failure away lowers the sum by one for its key, and by nothing without it. */
  lemma {:induction false} CountAllButFirst(keys: seq<Key>, errors: seq<Failure>)
    requires errors != []
    requires forall k, l :: 0 <= k < l < |keys| ==> keys[k] != keys[l]
    ensures CountAll(keys, errors) == CountAll(keys, errors[1..]) + if KeyOf(errors[0]) in keys then 1 else 0
    decreases |keys|
  {
    if keys != [] {
      CountAllButFirst(keys[1..], errors);
      assert KeyOf(errors[0]) in keys <==> KeyOf(errors[0]) == keys[0] || KeyOf(errors[0]) in keys[1..];
    }
  }

  lemma {:induction false} DistinctKeysCountAll(keys: seq<Key>, errors: seq<Failure>)
    requires forall k, l :: 0 <= k < l < |keys| ==> keys[k] != keys[l]
    requires forall i :: 0 <= i < |errors| ==> KeyOf(errors[i]) in keys
    ensures CountAll(keys, errors) == |errors|
    decreases |errors|
  {
    if errors == [] {
      NobodyCounts(keys);
    } else {
      CountAllButFirst(keys, errors);
      DistinctKeysCountAll(keys, errors[1..]);
    }
  }

  /** A report accounts for every pending failure exactly once. */
  lemma ReportConserves(pending: seq<Failure>, limit: int)
    ensures Total(Report(pending, limit)) == |pending|
  {
    hide Collect, Reversed, Occurrences;
    var d := Collect(Keyed(Reversed(pending)));
    var rows := Report(pending, limit);
    var keys := seq(|d|, k requires 0 <= k < |d| => d[k].0);
    var picked := CollectKeepsLast(Keyed(Reversed(pending)));
    forall i | 0 <= i < |pending|
      ensures KeyOf(pending[i]) in keys
    {
      ReversedAt(pending, i);
      assert HasKey(d, Keyed(Reversed(pending))[|pending| - 1 - i].0);
      var k :| 0 <= k < |d| && d[k].0 == KeyOf(pending[i]);
      assert keys[k] == KeyOf(pending[i]);
    }
    TotalIsCountAll(rows, keys, pending);
    DistinctKeysCountAll(keys, pending);
  }

  // ----- The state behind the reports -----

  /** One list of pending failures per user, newest first, and each query's failure counter. */
  datatype Board = Board(lists: map<nat, seq<Failure>>, failures: map<nat, nat>) {
    function Pending(user: nat): seq<Failure> {
      if user in lists then lists[user] else []
    }

    function Failures(query: nat): nat {
      if query in failures then failures[query] else 0
    }
  }

  datatype Event =
    | Track(query: Query, message: string, at: int)
    | Send(user: nat)
    | Reset(queryId: nat)

  /** Whether tracking the failure puts it on the list: only below the limit, counted after this failure. */
  predicate Pushes(b: Board, e: Event, limit: int) {
    && e.Track? && e.query.subscribed && !e.query.userDisabled
    && b.Failures(e.query.id) + 1 < limit
  }

  function Step(b: Board, e: Event, limit: int): Board {
    match e
    case Track(q, message, at) =>
      var n := b.Failures(q.id) + 1;
      var counted := b.(failures := b.failures[q.id := n]);
      if Pushes(b, e, limit) then
        counted.(lists := b.lists[q.user := [Failure(q.id, q.name, message, n, at)] + b.Pending(q.user)])
      else counted
    case Send(user) => b.(lists := b.lists - {user})
    case Reset(query) => b.(failures := b.failures[query := 0])
  }

  class FailureBoard {
    var lists: map<nat, seq<Failure>>
    var failures: map<nat, nat>
    const limit: int

    constructor (limit: int)
      ensures lists == map[] && failures == map[] && this.limit == limit
    {
      lists, failures, this.limit := map[], map[], limit;
    }

    function State(): Board
      reads this
    {
      Board(lists, failures)
    }

    method TrackFailure(query: Query, error: string, now: int)
      modifies this
      ensures State() == Step(old(State()), Track(query, error, now), limit)
    {
      var n := State().Failures(query.id) + 1;
      failures := failures[query.id := n];
      NotifyOfFailure(error, query, n, now);
    }

    method NotifyOfFailure(message: string, query: Query, scheduleFailures: nat, now: int)
      modifies this`lists
      ensures lists == if query.subscribed && !query.userDisabled && scheduleFailures < limit
        then old(lists)[query.user := [Failure(query.id, query.name, message, scheduleFailures, now)]
                                    + old(State()).Pending(query.user)]
        else old(lists)
    {
      var exceededThreshold := scheduleFailures >= limit;
      if query.subscribed && !query.userDisabled && !exceededThreshold {
        var failure := Failure(query.id, query.name, message, scheduleFailures, now);
        lists := lists[query.user := [failure] + State().Pending(query.user)];
      }
    }

    /** The rows of the report, none if nothing is pending; the list is deleted either way. */
    method SendFailureReport(user: nat) returns (rows: seq<ReportRow>)
      modifies this
      ensures State() == Step(old(State()), Send(user), limit)
      ensures rows == Report(old(State()).Pending(user), limit)
    {
      rows := [];
      var errors := State().Pending(user);
      if errors != [] {
        var unique := Collect(Keyed(Reversed(errors)));
        rows := Rows(unique, errors, limit);
      }
      lists := lists - {user};
    }

    method ResetFailures(query: nat)
      modifies this
      ensures State() == Step(old(State()), Reset(query), limit)
    {
      failures := failures[query := 0];
    }
  }

  // ----- Whole runs -----

  function After(b: Board, events: seq<Event>, limit: int): Board
    decreases |events|
  {
    if events == [] then b else After(Step(b, events[0], limit), events[1..], limit)
  }

  /** How many failures the run puts on the user's list. */
  function PushedTo(b: Board, events: seq<Event>, limit: int, user: nat): nat
    decreases |events|
  {
    if events == [] then 0
    else
      (if Pushes(b, events[0], limit) && events[0].query.user == user then 1 else 0) +
      PushedTo(Step(b, events[0], limit), events[1..], limit, user)
  }

  /** How many failures the user's reports of the run account for. */
  function ReportedTo(b: Board, events: seq<Event>, limit: int, user: nat): nat
    decreases |events|
  {
    if events == [] then 0
    else
      (if events[0] == Send(user) then Total(Report(b.Pending(user), limit)) else 0) +
      ReportedTo(Step(b, events[0], limit), events[1..], limit, user)
  }

  /** No failure is lost or reported twice: what was pushed has been reported or is still pending. */
  lemma {:induction false} FailuresAreConserved(b: Board, events: seq<Event>, limit: int, user: nat)
    ensures |b.Pending(user)| + PushedTo(b, events, limit, user) ==
      ReportedTo(b, events, limit, user) + |After(b, events, limit).Pending(user)|
    decreases |events|
  {
    if events != [] {
      hide Report, Total;
      FailuresAreConserved(Step(b, events[0], limit), events[1..], limit, user);
      if events[0] == Send(user) {
        ReportConserves(b.Pending(user), limit);
      }
    }
  }

  function Tracked(events: seq<Event>, query: nat): nat {
    if events == [] then 0
    else (if events[0].Track? && events[0].query.id == query then 1 else 0) + Tracked(events[1..], query)
  }

  function PushedFor(b: Board, events: seq<Event>, limit: int, query: nat): nat
    decreases |events|
  {
    if events == [] then 0
    else
      (if Pushes(b, events[0], limit) && events[0].query.id == query then 1 else 0) +
      PushedFor(Step(b, events[0], limit), events[1..], limit, query)
  }

  function Room(b: Board, limit: int, query: nat): nat {
    if b.Failures(query) + 1 < limit then limit - 1 - b.Failures(query) else 0
  }

  function Min(x: nat, y: nat): nat {
    if x < y then x else y
  }

  /** Every listed failure of the query is wanted by its owner. */
  ghost predicate AlwaysWanted(events: seq<Event>, query: nat) {
    forall e :: e in events && e.Track? && e.query.id == query ==> e.query.subscribed && !e.query.userDisabled
  }

  /**
   * Between resets the failures of one query reach the list at most limit - 1 times from a zero
   * counter, and exactly the first ones do while its owner wants them.
   */
  lemma {:induction false} ReportingStopsAtLimit(b: Board, events: seq<Event>, limit: int, query: nat)
    requires Reset(query) !in events
    ensures After(b, events, limit).Failures(query) == b.Failures(query) + Tracked(events, query)
    ensures PushedFor(b, events, limit, query) <= Min(Tracked(events, query), Room(b, limit, query))
    ensures AlwaysWanted(events, query) ==>
      PushedFor(b, events, limit, query) == Min(Tracked(events, query), Room(b, limit, query))
    decreases |events|
  {
    hide Step, Pushes;
    if events != [] {
      assert events[0] in events && forall e :: e in events[1..] ==> e in events;
      CounterAfter(b, events[0], limit, query);
      ReportingStopsAtLimit(Step(b, events[0], limit), events[1..], limit, query);
    }
  }

  /** One event other than a reset: the counter rises with each failure, which is listed if there is room. */
  lemma CounterAfter(b: Board, e: Event, limit: int, query: nat)
    requires e != Reset(query)
    ensures var tracked := e.Track? && e.query.id == query;
      && Step(b, e, limit).Failures(query) == b.Failures(query) + (if tracked then 1 else 0)
      && (Pushes(b, e, limit) ==> e.Track?)
      && (tracked ==> (Pushes(b, e, limit) <==>
                         e.query.subscribed && !e.query.userDisabled && Room(b, limit, query) > 0))
  {
  }

  // ----- Counters and contents over runs with resets -----

  /** A query's failures since its last reset, or since the start with what was counted before. */
  function SinceReset(counted: nat, events: seq<Event>, query: nat): nat
    decreases |events|
  {
    if events == [] then counted
    else if events[0] == Reset(query) then SinceReset(0, events[1..], query)
    else if events[0].Track? && events[0].query.id == query then SinceReset(counted + 1, events[1..], query)
    else SinceReset(counted, events[1..], query)
  }

  /** The counter of a query counts its failures since its last reset; other queries do not touch it. */
  lemma {:induction false} CounterIsFailuresSinceReset(b: Board, events: seq<Event>, limit: int, query: nat)
    ensures After(b, events, limit).Failures(query) == SinceReset(b.Failures(query), events, query)
    decreases |events|
  {
    if events != [] {
      CounterIsFailuresSinceReset(Step(b, events[0], limit), events[1..], limit, query);
    }
  }

  /** The pending failure tells of the tracked one. */
  predicate TellsOf(f: Failure, e: Event, user: nat) {
    && e.Track? && e.query.user == user && e.query.subscribed && !e.query.userDisabled
    && f.id == e.query.id && f.name == e.query.name && f.message == e.message && f.failedAt == e.at
  }

  /** Nothing is pending that was not pending before or tracked, for this user, with this text and time. */
  lemma {:induction false} PendingHasASource(b: Board, events: seq<Event>, limit: int, user: nat, f: Failure)
    requires f in After(b, events, limit).Pending(user)
    ensures f in b.Pending(user) || exists e :: e in events && TellsOf(f, e, user)
    decreases |events|
  {
    if events != [] {
      hide After, TellsOf;
      AfterFirst(b, events, limit);
      PendingHasASource(Step(b, events[0], limit), events[1..], limit, user, f);
      if exists e :: e in events[1..] && TellsOf(f, e, user) {
        var e :| e in events[1..] && TellsOf(f, e, user);
        assert e in events;
      } else {
        PendingAfterStep(b, events[0], limit, user, f);
        assert events[0] in events;
      }
    }
  }

  lemma AfterFirst(b: Board, events: seq<Event>, limit: int)
    requires events != []
    ensures After(b, events, limit) == After(Step(b, events[0], limit), events[1..], limit)
  {
  }

  lemma PendingAfterStep(b: Board, e: Event, limit: int, user: nat, f: Failure)
    requires f in Step(b, e, limit).Pending(user)
    ensures f in b.Pending(user) || TellsOf(f, e, user)
  {
  }

  /** A failure that is listed comes first, with the number of failures counted so far. */
  lemma ListedFirst(b: Board, e: Event, limit: int)
    requires Pushes(b, e, limit)
    ensures var after := Step(b, e, limit).Pending(e.query.user);
      && |after| == |b.Pending(e.query.user)| + 1 && after[1..] == b.Pending(e.query.user)
      && TellsOf(after[0], e, e.query.user) && after[0].scheduleFailures == b.Failures(e.query.id) + 1
  {
  }
}
