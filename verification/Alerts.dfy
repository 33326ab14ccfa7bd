// Alert checks: state, rearming and notification.

module Alerts {
  import opened Outcomes
  import opened Scheduler

  datatype State = Unknown | Okay | Triggered

  /** The stored part of an alert that checks update. */
  datatype Record = Record(state: State, lastTriggeredAt: Option<int>)

  /**
   * One check: the state the query's latest result evaluates to, the two readings of the clock, and
   * whether the alert is muted then.
   */
  datatype Check = Check(newState: State, judgedAt: int, storedAt: int, muted: bool)

  /** The rearm period has passed: it is set, not zero, and the alert has been stored before. */
  predicate PassedRearm(last: Option<int>, rearm: Option<int>, now: int) {
    rearm.Some? && rearm.value != 0 && last.Some? && last.value + rearm.value * SECOND < now
  }

  predicate ShouldNotify(r: Record, rearm: Option<int>, c: Check) {
    c.newState != r.state || (r.state == Triggered && PassedRearm(r.lastTriggeredAt, rearm, c.judgedAt))
  }

  /** The record after a check. */
  function Next(r: Record, rearm: Option<int>, c: Check): Record {
    if ShouldNotify(r, rearm, c) then Record(c.newState, Some(c.storedAt)) else r
  }

  /** Whether the check notifies the subscribers. */
  predicate Notifies(r: Record, rearm: Option<int>, c: Check) {
    ShouldNotify(r, rearm, c) && !(r.state == Unknown && c.newState == Okay) && !c.muted
  }

  class Alert {
    var state: State
    var lastTriggeredAt: Option<int>
    const rearm: Option<int>

    constructor (rearm: Option<int>)
      ensures state == Unknown && lastTriggeredAt == None && this.rearm == rearm
    {
      state, lastTriggeredAt, this.rearm := Unknown, None, rearm;
    }

    function Stored(): Record
      reads this
    {
      Record(state, lastTriggeredAt)
    }
  }

  /** The alerts of a query are checked one by one; notified lists which of them notify. */
  method CheckAlertsForQuery(alerts: seq<Alert>, checks: seq<Check>) returns (notified: seq<bool>)
    requires |checks| == |alerts|
    requires forall i, j :: 0 <= i < j < |alerts| ==> alerts[i] != alerts[j]
    modifies alerts
    ensures |notified| == |alerts|
    ensures forall i :: 0 <= i < |alerts| ==>
              alerts[i].Stored() == Next(old(alerts[i].Stored()), alerts[i].rearm, checks[i])
    ensures forall i :: 0 <= i < |alerts| ==>
              (notified[i] <==> Notifies(old(alerts[i].Stored()), alerts[i].rearm, checks[i]))
  {
    notified := [];
    for n := 0 to |alerts|
      invariant |notified| == n
      invariant forall i :: n <= i < |alerts| ==> alerts[i].Stored() == old(alerts[i].Stored())
      invariant forall i :: 0 <= i < n ==>
                  alerts[i].Stored() == Next(old(alerts[i].Stored()), alerts[i].rearm, checks[i])
      invariant forall i :: 0 <= i < n ==>
                  (notified[i] <==> Notifies(old(alerts[i].Stored()), alerts[i].rearm, checks[i]))
    {
      var alert, check := alerts[n], checks[n];
      var notify := false;
      if ShouldNotify(alert.Stored(), alert.rearm, check) {
        var oldState := alert.state;
        alert.state := check.newState;
        alert.lastTriggeredAt := Some(check.storedAt);
        notify := !(oldState == Unknown && check.newState == Okay) && !check.muted;
      }
      notified := notified + [notify];
    }
  }

  // ----- Whole runs of one alert -----

  /** The record before check n of a run. */
  function At(start: Record, rearm: Option<int>, checks: seq<Check>, n: nat): Record
    requires n <= |checks|
    decreases n
  {
    if n == 0 then start else Next(At(start, rearm, checks, n - 1), rearm, checks[n - 1])
  }

  ghost predicate Timed(start: Record, checks: seq<Check>) {
    && (forall i :: 0 <= i < |checks| ==> checks[i].judgedAt <= checks[i].storedAt)
    && (forall i, j :: 0 <= i < j < |checks| ==> checks[i].storedAt <= checks[j].judgedAt)
    && (start.lastTriggeredAt.Some? ==>
         forall i :: 0 <= i < |checks| ==> start.lastTriggeredAt.value <= checks[i].judgedAt)
  }

  predicate NotifiesAt(start: Record, rearm: Option<int>, checks: seq<Check>, n: nat)
    requires n < |checks|
  {
    Notifies(At(start, rearm, checks, n), rearm, checks[n])
  }

  /** The state changes at check n. */
  predicate ChangesAt(start: Record, rearm: Option<int>, checks: seq<Check>, n: nat)
    requires n < |checks|
  {
    checks[n].newState != At(start, rearm, checks, n).state
  }

  /** The stored state is always the last evaluated one. */
  lemma StateIsLastEvaluated(start: Record, rearm: Option<int>, checks: seq<Check>, n: nat)
    requires 0 < n <= |checks|
    ensures At(start, rearm, checks, n).state == checks[n - 1].newState
  {
  }

  /** What the record remembers as its last time: the last check that changed the state or rearmed. */
  lemma {:induction false} LastTimeIsKept(start: Record, rearm: Option<int>, checks: seq<Check>, i: nat, n: nat)
    requires i < n <= |checks| && Timed(start, checks)
    requires ShouldNotify(At(start, rearm, checks, i), rearm, checks[i])
    ensures At(start, rearm, checks, n).lastTriggeredAt.Some?
    ensures At(start, rearm, checks, n).lastTriggeredAt.value >= checks[i].storedAt
    decreases n
  {
    if i < n - 1 {
      LastTimeIsKept(start, rearm, checks, i, n - 1);
    }
  }

  /**
   * Two notifications without a state change between them are a rearm: the alert stays triggered,
   * a rearm period is set, and more than that period has passed.
   */
  lemma NotificationsAreSpaced(start: Record, rearm: Option<int>, checks: seq<Check>, i: nat, j: nat)
    requires i < j < |checks| && Timed(start, checks)
    requires NotifiesAt(start, rearm, checks, i) && NotifiesAt(start, rearm, checks, j)
    requires forall k :: i < k <= j ==> !ChangesAt(start, rearm, checks, k)
    ensures rearm.Some? && rearm.value != 0 && checks[j].newState == Triggered
    ensures checks[j].judgedAt > checks[i].storedAt + rearm.value * SECOND
  {
    LastTimeIsKept(start, rearm, checks, i, j);
    assert !ChangesAt(start, rearm, checks, j);
  }

  /** Without a rearm period a stretch of one state notifies at most once. */
  lemma AtMostOnceWithoutRearm(start: Record, rearm: Option<int>, checks: seq<Check>, i: nat, j: nat)
    requires i < j < |checks| && Timed(start, checks) && (rearm.None? || rearm.value == 0)
    requires forall k :: i < k <= j ==> !ChangesAt(start, rearm, checks, k)
    ensures !(NotifiesAt(start, rearm, checks, i) && NotifiesAt(start, rearm, checks, j))
  {
    if NotifiesAt(start, rearm, checks, i) && NotifiesAt(start, rearm, checks, j) {
      NotificationsAreSpaced(start, rearm, checks, i, j);
    }
  }

  /** How many of the checks from i to n - 1 notify. */
  function Notifications(start: Record, rearm: Option<int>, checks: seq<Check>, i: nat, n: nat): nat
    requires i <= n <= |checks|
    decreases n
  {
    if n == i then 0
    else Notifications(start, rearm, checks, i, n - 1) + if NotifiesAt(start, rearm, checks, n - 1) then 1 else 0
  }

  lemma {:induction false} LastNotification(start: Record, rearm: Option<int>, checks: seq<Check>, i: nat, n: nat)
    returns (k: nat)
    requires i < n <= |checks| && NotifiesAt(start, rearm, checks, i)
    ensures i <= k < n && NotifiesAt(start, rearm, checks, k)
    ensures Notifications(start, rearm, checks, i, k + 1) == Notifications(start, rearm, checks, i, n)
    decreases n
  {
    if NotifiesAt(start, rearm, checks, n - 1) {
      k := n - 1;
    } else {
      k := LastNotification(start, rearm, checks, i, n - 1);
    }
  }

  /** In a stretch of one state c notifications take more than c - 1 rearm periods. */
  lemma {:induction false} NotificationRate(start: Record, rearm: Option<int>, checks: seq<Check>, i: nat, n: nat)
    requires i < n <= |checks| && Timed(start, checks) && rearm.Some? && rearm.value > 0
    requires NotifiesAt(start, rearm, checks, i) && NotifiesAt(start, rearm, checks, n - 1)
    requires forall k :: i < k < n ==> !ChangesAt(start, rearm, checks, k)
    ensures (Notifications(start, rearm, checks, i, n) - 1) * (rearm.value * SECOND) <=
            checks[n - 1].judgedAt - checks[i].judgedAt
    decreases n
  {
    if i < n - 1 {
      var k := LastNotification(start, rearm, checks, i, n - 1);
      NotificationRate(start, rearm, checks, i, k + 1);
      NotificationsAreSpaced(start, rearm, checks, k, n - 1);
      hide At, Notifies;
      var c := Notifications(start, rearm, checks, i, k + 1);
      assert Notifications(start, rearm, checks, i, n) == c + 1;
      OneMorePeriod(c, rearm.value * SECOND);
    }
  }

  lemma OneMorePeriod(c: int, period: int)
    ensures (c + 1 - 1) * period == (c - 1) * period + period
  {
  }

  /** A triggered alert that is due for rearming does notify, unless it is muted. */
  lemma RearmNotifies(start: Record, rearm: Option<int>, checks: seq<Check>, n: nat)
    requires n < |checks| && !checks[n].muted && checks[n].newState == Triggered
    requires rearm.Some? && rearm.value != 0
    requires var last := At(start, rearm, checks, n).lastTriggeredAt;
      last.Some? && last.value + rearm.value * SECOND < checks[n].judgedAt
    ensures NotifiesAt(start, rearm, checks, n)
  {
  }

  /** A first good evaluation never notifies. */
  lemma FirstGoodIsSilent(start: Record, rearm: Option<int>, checks: seq<Check>, n: nat)
    requires n < |checks| && At(start, rearm, checks, n).state == Unknown && checks[n].newState == Okay
    ensures !NotifiesAt(start, rearm, checks, n)
  {
  }

  predicate SameButMuting(checks: seq<Check>, others: seq<Check>) {
    |checks| == |others| &&
    forall i :: 0 <= i < |checks| ==> others[i] == checks[i].(muted := others[i].muted)
  }

  /** Muting suppresses notifications only: states, times and all other notifications stay the same. */
  lemma {:induction false} MutingIsInvisible(start: Record, rearm: Option<int>, checks: seq<Check>,
                                             others: seq<Check>, n: nat)
    requires SameButMuting(checks, others) && n <= |checks|
    ensures At(start, rearm, checks, n) == At(start, rearm, others, n)
    ensures n < |checks| && checks[n].muted == others[n].muted ==>
      (NotifiesAt(start, rearm, checks, n) <==> NotifiesAt(start, rearm, others, n))
    decreases n
  {
    if n > 0 {
      MutingIsInvisible(start, rearm, checks, others, n - 1);
    }
  }

  // ----- Exactly when an alert notifies -----

  /** A change of state is recorded with its time and notifies, unless muted or a first good evaluation. */
  lemma ChangeNotifiesExactly(start: Record, rearm: Option<int>, checks: seq<Check>, n: nat)
    requires n < |checks| && ChangesAt(start, rearm, checks, n)
    ensures At(start, rearm, checks, n + 1) == Record(checks[n].newState, Some(checks[n].storedAt))
    ensures NotifiesAt(start, rearm, checks, n) <==>
      !checks[n].muted && (At(start, rearm, checks, n).state == Unknown ==> checks[n].newState == Triggered)
  {
  }

  /** Check i recorded a time. */
  predicate RecordsAt(start: Record, rearm: Option<int>, checks: seq<Check>, i: nat)
    requires i < |checks|
  {
    At(start, rearm, checks, i + 1).lastTriggeredAt == Some(checks[i].storedAt)
  }

  lemma {:induction false} NothingRecordedSince(start: Record, rearm: Option<int>, checks: seq<Check>, i: nat, n: nat)
    requires i < n <= |checks| && RecordsAt(start, rearm, checks, i)
    requires forall k :: i < k < n ==> !RecordsAt(start, rearm, checks, k)
    ensures At(start, rearm, checks, n).lastTriggeredAt == Some(checks[i].storedAt)
    decreases n
  {
    if i < n - 1 {
      NothingRecordedSince(start, rearm, checks, i, n - 1);
      assert !RecordsAt(start, rearm, checks, n - 1);
    }
  }

  /**
   * Without a change of state since the last recorded time, an alert notifies exactly when it is
   * triggered, not muted, has a rearm period, and that many seconds have passed since.
   */
  lemma RenotifiesExactly(start: Record, rearm: Option<int>, checks: seq<Check>, i: nat, n: nat)
    requires i < n < |checks| && RecordsAt(start, rearm, checks, i)
    requires forall k :: i < k < n ==> !RecordsAt(start, rearm, checks, k)
    requires !ChangesAt(start, rearm, checks, n)
    ensures NotifiesAt(start, rearm, checks, n) <==>
      && checks[n].newState == Triggered && !checks[n].muted
      && rearm.Some? && rearm.value != 0
      && checks[n].judgedAt - checks[i].storedAt > rearm.value * 1_000_000
  {
    NothingRecordedSince(start, rearm, checks, i, n);
  }
}
