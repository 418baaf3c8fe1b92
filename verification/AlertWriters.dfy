/** The writers of alerts: the manager of metric monitors, the users, and the job that follows
    errors. Each works on an alert that it has read some time before; what it does to the
    database is a step of the protocol. */
module AlertWriters {
  import opened Basics
  import opened MetricCheck
  import opened AlertProtocol
  import opened NotificationLadder

  /** An alert in memory, with the event that was read with it. An id of 0 is none. */
  class Alert {
    var id: nat
    const kind: Kind
    const project: nat
    const dedup: nat
    var eventID: nat
    var event: Event

    constructor (id: nat, kind: Kind, project: nat, dedup: nat, eventID: nat, event: Event)
      ensures this.id == id && this.kind == kind && this.project == project && this.dedup == dedup
      ensures this.eventID == eventID && this.event == event
    {
      this.id, this.kind, this.project, this.dedup, this.eventID, this.event := id, kind, project, dedup, eventID, event;
    }

    function Snap(): Snapshot
      reads this
    {
      Snapshot(id, kind, eventID, event)
    }
  }

  /** What is done with an alert that was read at some time keeps the invariant of the protocol,
      whatever other writers have read. */
  ghost predicate KeepsGood(before: Db, after: Db, read: Snapshot) {
    forall writers :: Good(System(before, writers)) && ReadFrom(before.alerts, before.events, read) ==>
      Good(System(after, writers))
  }

  /** So does what is done without one. */
  ghost predicate KeepsGoodAlone(before: Db, after: Db) {
    forall writers :: Good(System(before, writers)) ==> Good(System(after, writers))
  }

  lemma AllowedKeepsGood(db: Db, read: Snapshot, action: Action)
    requires Allowed(read.kind, read.event, action)
    ensures KeepsGood(db, Committed(db, read, Derived(read.event, action)), read)
  {
    forall writers | Good(System(db, writers)) && ReadFrom(db.alerts, db.events, read)
      ensures Good(System(Committed(db, read, Derived(read.event, action)), writers))
    {
      CommitOfReadKeepsGood(db, read, action, writers);
    }
  }

  lemma NewAlertKeepsGood(db: Db, kind: Kind, project: nat, dedup: nat, event: Event)
    requires kind == MetricKind ==> dedup == 0
    ensures KeepsGoodAlone(db, WithAlert(db, kind, project, dedup, event))
  {
    forall writers | Good(System(db, writers)) ensures Good(System(WithAlert(db, kind, project, dedup, event), writers)) {
      CreateKeepsGood(System(db, writers), kind, project, dedup, event);
    }
  }

  /** A user's change of an alert as it is in the database. */
  lemma UserChangeKeepsGood(db: Db, read: Snapshot, status: Status, userID: nat)
    requires read.alert in db.alerts && db.alerts[read.alert].eventID in db.events
    requires var row := db.alerts[read.alert]; read == Snapshot(read.alert, row.kind, row.eventID, db.events[row.eventID])
    requires read.event.status != status
    ensures KeepsGoodAlone(db, Committed(db, read, Derived(read.event, UserChange(status, userID))))
  {
    AllowedKeepsGood(db, read, UserChange(status, userID));
    forall writers | Good(System(db, writers)) ensures ReadFrom(db.alerts, db.events, read) {
      ReadKeepsGood(System(db, writers), 0, read.alert);
      assert After(System(db, writers), Read(0, read.alert)).writers[0] == read;
    }
  }

  lemma TouchedKeepsGood(db: Db, read: Snapshot, at: nat, params: Params)
    requires read.kind == ErrorKind
    ensures KeepsGood(db, Touched(db, read, at, params), read)
  {
    forall writers | Good(System(db, writers)) && ReadFrom(db.alerts, db.events, read)
      ensures Good(System(Touched(db, read, at, params), writers))
    {
      TouchOfReadKeepsGood(db, read, at, params, writers);
    }
  }

  /** The database, and the statements of its transactions. */
  class Database {
    var state: Db

    constructor ()
      ensures state == EMPTY.db
    {
      state := EMPTY.db;
    }

    /** Reads an alert with its event. */
    method Select(a: nat) returns (alert: Alert?)
      ensures alert != null <==> a in state.alerts && state.alerts[a].eventID in state.events
      ensures alert != null ==> fresh(alert)
      ensures alert == null ||
        alert.Snap() == Snapshot(a, state.alerts[a].kind, state.alerts[a].eventID, state.events[state.alerts[a].eventID])
    {
      if a in state.alerts && state.alerts[a].eventID in state.events {
        var row := state.alerts[a];
        alert := new Alert(a, row.kind, row.project, row.dedup, row.eventID, state.events[row.eventID]);
      } else {
        alert := null;
      }
    }

    /** Inserts the event, unless it has no time; the id 0 is the error. */
    method InsertAlertEvent(event: Event) returns (id: nat)
      requires state.nextEvent > 0
      modifies this
      ensures event.time == 0 ==> id == 0 && state == old(state)
      ensures event.time != 0 ==> id == old(state.nextEvent)
      ensures event.time != 0 ==>
        state == old(state).(events := old(state).events[id := Stamped(event)], nextEvent := id + 1)
    {
      if event.time == 0 { return 0; }
      var stamped := event;
      if stamped.createdAt == 0 {
        stamped := stamped.(createdAt := stamped.time);
      }
      id := state.nextEvent;
      state := state.(events := state.events[id := stamped], nextEvent := id + 1);
    }

    /** Swaps the event id of the alert if it is still the one that the alert was read with. */
    method UpdateAlertEvent(alert: Alert, id: nat, event: Event) returns (ok: bool)
      modifies this, alert
      ensures ok <==> old(alert.id) in old(state).alerts && old(state).alerts[old(alert.id)].eventID == old(alert.eventID)
      ensures !ok ==> state == old(state) && alert.Snap() == old(alert.Snap())
      ensures ok ==> alert.Snap() == old(alert.Snap()).(eventID := id, event := event)
      ensures ok ==> var row := old(state).alerts[old(alert.id)];
        state == old(state).(alerts := old(state).alerts[old(alert.id) :=
          row.(eventID := id, log := row.log + [Link(id, old(alert.eventID))])])
    {
      ok := alert.id in state.alerts && state.alerts[alert.id].eventID == alert.eventID;
      if !ok { return; }
      var row := state.alerts[alert.id];
      var swapped := row.(eventID := id, log := row.log + [Link(id, alert.eventID)]);
      state := state.(alerts := state.alerts[alert.id := swapped]);
      alert.eventID, alert.event := id, event;
    }

    /** Inserts a row for the alert unless the index on project and hash refuses it. */
    method InsertAlert(alert: Alert) returns (inserted: bool)
      modifies this, alert
      ensures inserted <==> !Taken(old(state), alert.project, alert.dedup)
      ensures alert.Snap() == old(alert.Snap()).(alert := if inserted then old(state.nextAlert) else old(alert.id))
      ensures var a := old(state.nextAlert);
        state == if inserted then
          old(state).(alerts := old(state).alerts[a := Row(alert.kind, alert.project, alert.dedup, old(alert.eventID), [])],
                      nextAlert := a + 1)
        else old(state).(nextAlert := a + 1)
    {
      var a := state.nextAlert;
      inserted := !Taken(state, alert.project, alert.dedup);
      state := state.(nextAlert := a + 1);
      if inserted {
        state := state.(alerts := state.alerts[a := Row(alert.kind, alert.project, alert.dedup, alert.eventID, [])]);
        alert.id := a;
      }
    }

    /** The transaction of all later events: insert, swap, and roll back if either fails. */
    method CommitEvent(alert: Alert, event: Event) returns (ok: bool)
      requires state.nextEvent > 0
      modifies this, alert
      ensures state == Committed(old(state), old(alert.Snap()), event)
      ensures ok <==> event.time != 0 && Current(old(state), old(alert.Snap()))
      ensures ok ==> alert.Snap() == old(alert.Snap()).(eventID := old(state.nextEvent), event := event)
      ensures !ok ==> state.alerts == old(state.alerts) && state.events == old(state.events) && alert.Snap() == old(alert.Snap())
    {
      var saved := state;
      var id := InsertAlertEvent(event);
      if id == 0 { return false; }
      ok := UpdateAlertEvent(alert, id, event);
      if !ok {
        state := saved.(nextEvent := state.nextEvent);
      }
    }

    method ChangeAlertStatus(alert: Alert, status: Status, userID: nat) returns (ok: bool)
      requires state.nextEvent > 0
      modifies this, alert
      ensures state == Committed(old(state), old(alert.Snap()),
        old(alert.event).(userID := userID, name := StatusChanged, status := status))
      ensures ok <==> old(alert.event).time != 0 && Current(old(state), old(alert.Snap()))
      ensures ok ==> alert.event.status == status
    {
      ok := CommitEvent(alert, alert.event.(userID := userID, name := StatusChanged, status := status));
    }

    method CloseAlert(alert: Alert, at: nat) returns (ok: bool)
      requires state.nextEvent > 0
      modifies this, alert
      ensures state == Committed(old(state), old(alert.Snap()), Derived(old(alert.event), Close(at, old(alert.event.params))))
      ensures ok <==> old(alert.event).time != 0 && Current(old(state), old(alert.Snap()))
      ensures ok ==> alert.event.status == Closed
    {
      alert.event := alert.event.(createdAt := at);
      ok := ChangeAlertStatus(alert, Closed, 0);
    }

    method ReopenAlert(alert: Alert, at: nat) returns (ok: bool)
      requires state.nextEvent > 0
      modifies this, alert
      ensures state == Committed(old(state), old(alert.Snap()), Derived(old(alert.event), Reopen(at, old(alert.event.params))))
      ensures ok <==> at != 0 && Current(old(state), old(alert.Snap()))
      ensures ok ==> alert.event.status == Open
    {
      alert.event := alert.event.(time := at, createdAt := at);
      ok := ChangeAlertStatus(alert, Open, 0);
    }

    method RemindAboutAlert(alert: Alert, at: nat) returns (ok: bool)
      requires state.nextEvent > 0
      modifies this, alert
      ensures state == Committed(old(state), old(alert.Snap()), Derived(old(alert.event), Remind(at, old(alert.event.params))))
      ensures ok <==> old(alert.event).time != 0 && Current(old(state), old(alert.Snap()))
    {
      ok := CommitEvent(alert, alert.event.(name := Recurring, createdAt := at));
    }

    /** The transaction that creates an alert with its first event. */
    method CreateAlert(alert: Alert) returns (ok: bool)
      requires state.nextEvent > 0 && state.nextAlert !in state.alerts
      requires alert.eventID == 0 && alert.event.name == Created
      modifies this, alert
      ensures state == WithAlert(old(state), alert.kind, alert.project, alert.dedup, old(alert.event))
      ensures ok <==> Taken(old(state), alert.project, alert.dedup) || old(alert.event).time != 0
    {
      var saved := state;
      var inserted := InsertAlert(alert);
      if !inserted { return true; }
      var event := alert.event.(alert := alert.id);
      var id := InsertAlertEvent(event);
      if id == 0 {
        state := saved.(nextAlert := state.nextAlert);
        return false;
      }
      ok := UpdateAlertEvent(alert, id, event);
      assert [] + [Link(id, 0)] == [Link(id, 0)];
    }

    /** A user opens or closes an alert: nothing happens if it already has the status. */
    method ChangeStatusByUser(a: nat, status: Status, userID: nat) returns (ok: bool)
      requires state.nextEvent > 0
      modifies this
      ensures a in old(state).alerts && old(state).alerts[a].eventID in old(state).events ==>
        var row := old(state).alerts[a]; var read := old(state).events[row.eventID];
        var action := UserChange(status, userID);
        && (Allowed(row.kind, read, action) <==> read.status != status)
        && (ok <==> read.status == status || read.time != 0)
        && state == if read.status == status then old(state)
                    else Committed(old(state), Snapshot(a, row.kind, row.eventID, read), Derived(read, action))
      ensures !(a in old(state).alerts && old(state).alerts[a].eventID in old(state).events) ==> !ok && state == old(state)
      ensures KeepsGoodAlone(old(state), state)
    {
      var alert := Select(a);
      if alert == null { return false; }
      if alert.event.status == status { return true; }
      UserChangeKeepsGood(state, alert.Snap(), status, userID);
      ok := ChangeAlertStatus(alert, status, userID);
    }
  }

  // ---------------------------------------------------------------------------
  // The manager of metric monitors
  // ---------------------------------------------------------------------------

  /** The action of the manager for an open alert. */
  function OpenDecision(read: Event, values: seq<Float>, times: seq<nat>, n: nat, bounds: Bounds): Option<Action>
    requires 0 < n <= |values| == |times| && read.params.MetricParams?
  {
    if NoneOut(values, bounds, n) then
      Some(Close(times[|times| - n], read.params.(normal := Filled(values[|values| - n]))))
    else if AllOut(values, bounds, n) && times[|times| - 1] - read.createdAt >= HOUR then
      Some(Remind(times[|times| - 1], read.params.(current := Filled(values[|values| - 1]))))
    else None
  }

  /** The number of holes that a series begins with. */
  function LeadingHoles(values: seq<Float>): (n: nat)
    ensures n <= |values|
    ensures forall i :: 0 <= i < n ==> values[i].NaN?
    ensures n < |values| ==> !values[n].NaN?
  {
    if values == [] || !values[0].NaN? then 0 else 1 + LeadingHoles(values[1..])
  }

  /** The check of a series without an open alert begins at the last of these holes. */
  function TrimIndex(values: seq<Float>): (index: nat)
    ensures index <= |values|
  {
    if LeadingHoles(values) == 0 then 0 else LeadingHoles(values) - 1
  }

  datatype Verdict = Nothing | Act(action: Action) | NewAlert(event: Event)

  function Update(bounds: Bounds, last: seq<Float>): Params
    requires last != []
  {
    MetricParams(bounds.IsOutlier(last[0]), last[0], last[0], Num(0.0), |last|)
  }

  /** What the manager does when there is no alert or a closed one. */
  function ClosedVerdict(read: Option<Event>, values: seq<Float>, times: seq<nat>, n: nat, bounds: Bounds): Verdict
    requires n > 0 && |values| == |times|
  {
    var input := values[TrimIndex(values)..];
    if !AllOut(input, bounds, n) then Nothing
    else
      var at, params := times[|times| - n], Update(bounds, LastFilled(input, n));
      if read.Some? && at - read.value.createdAt < 8 * HOUR then Act(Reopen(at, params))
      else NewAlert(Event(0, 0, Created, Open, at, 0, params))
  }

  /** Firing does not depend on the holes at the beginning. */
  lemma TrimmingKeepsOutliers(values: seq<Float>, bounds: Bounds, n: nat)
    requires AllOut(values[TrimIndex(values)..], bounds, n)
    ensures AllOut(values, bounds, n)
  {
    var index := TrimIndex(values);
    var input := values[index..];
    forall i | |values| - n <= i < |values| ensures !bounds.Inside(Filled(values[i])) {
      assert input[i - index] == values[i];
    }
  }

  /** The manager only takes actions that the protocol allows, for an open alert and for a closed
      one. */
  lemma DecisionsAllowed(read: Event, values: seq<Float>, times: seq<nat>, n: nat, bounds: Bounds)
    requires 0 < n <= |values| == |times| && read.params.MetricParams? && read.status == Open
    ensures var decision := OpenDecision(read, values, times, n, bounds);
      decision.Some? ==> Allowed(MetricKind, read, decision.value)
  {
  }

  lemma VerdictsAllowed(read: Event, values: seq<Float>, times: seq<nat>, n: nat, bounds: Bounds)
    requires 0 < n && |values| == |times| && read.status == Closed
    ensures var verdict := ClosedVerdict(Some(read), values, times, n, bounds);
      verdict.Act? ==> Allowed(MetricKind, read, verdict.action)
  {
  }

  method FindTrimIndex(values: array<Float>) returns (index: nat)
    ensures index == TrimIndex(values[..])
  {
    index := 0;
    for i := 0 to values.Length
      invariant LeadingHoles(values[..]) == i + LeadingHoles(values[i..])
      invariant index == if i == 0 then 0 else i - 1
    {
      if !values[i].NaN? { break; }
      assert values[i..][1..] == values[i + 1..];
      index := i;
    }
  }

  /** The state after the action of a writer that has read this. */
  function AfterAction(db: Db, read: Snapshot, action: Option<Action>): Db {
    if action.None? then db else Committed(db, read, Derived(read.event, action.value))
  }

  /** Whether the database takes the action. */
  predicate ActionSucceeds(db: Db, read: Snapshot, action: Option<Action>) {
    action.None? || (Current(db, read) && (if action.value.Reopen? || action.value.Repeat? then action.value.at else read.event.time) != 0)
  }

  lemma DecisionKeepsGood(db: Db, read: Snapshot, values: seq<Float>, times: seq<nat>, n: nat, bounds: Bounds)
    requires 0 < n <= |values| == |times| && read.event.params.MetricParams?
    requires read.kind == MetricKind && read.event.status == Open
    ensures KeepsGood(db, AfterAction(db, read, OpenDecision(read.event, values, times, n, bounds)), read)
  {
    var decision := OpenDecision(read.event, values, times, n, bounds);
    DecisionsAllowed(read.event, values, times, n, bounds);
    if decision.Some? { AllowedKeepsGood(db, read, decision.value); }
  }

  /** How a check ends: with or without an error of the database, or by an index out of range. */
  datatype Ending = Ended(ok: bool) | IndexOutOfRange

  lemma {:induction false} DecisionOfCheck(read: Event, values: seq<Float>, check: CheckResult, times: seq<nat>, n: nat, bounds: Bounds)
    requires 0 < n <= |values| == |times| && read.params.MetricParams?
    requires check.firing != 0 <==> AllOut(values, bounds, n)
    requires check.firingFor == 0 <==> NoneOut(values, bounds, n)
    requires check.firingFor == n <==> AllOut(values, bounds, n)
    ensures OpenDecision(read, values, times, n, bounds) ==
      if check.firing == 0 && check.firingFor == 0 then
        Some(Close(times[|times| - n], read.params.(normal := FilledAll(values)[|values| - n])))
      else if check.firingFor == n && times[|times| - 1] - read.createdAt >= HOUR then
        Some(Remind(times[|times| - 1], read.params.(current := FilledAll(values)[|values| - 1])))
      else None
  {
    if check.firingFor == 0 { assert bounds.Inside(Filled(values[|values| - n])); }
  }

  /** Parameters that are written into the event before it is copied come with the copy. */
  lemma ParamsFirst(db: Db, read: Snapshot, action: Action)
    requires action.Close? || action.Remind?
    ensures var changed := read.(event := read.event.(params := action.params));
      Committed(db, changed, Derived(changed.event, action)) == AfterAction(db, read, Some(action))
  {
  }

  /** A series that is shorter than what is to be checked does not fire, and is taken for one that
      has calmed down; then the index of its first checked point is negative. */
  method CheckOpenAlert(db: Database, alert: Alert, checker: Checker, values: array<Float>, times: seq<nat>)
    returns (r: Ending)
    requires db.state.nextEvent > 0 && alert.event.params.MetricParams?
    requires 0 < checker.duration && values.Length == |times|
    modifies db, alert, values
    ensures r.IndexOutOfRange? <==> values.Length < checker.duration
    ensures r.IndexOutOfRange? ==>
      db.state == old(db.state) && alert.Snap() == old(alert.Snap()) && values[..] == old(values[..])
    ensures !r.IndexOutOfRange? ==> db.state == AfterAction(old(db.state), old(alert.Snap()),
      OpenDecision(old(alert.event), old(values[..]), times, checker.duration, checker.bounds))
    ensures !r.IndexOutOfRange? ==> (r.ok <==> ActionSucceeds(old(db.state), old(alert.Snap()),
      OpenDecision(old(alert.event), old(values[..]), times, checker.duration, checker.bounds)))
  {
    var n := checker.duration;
    ghost var before, snap := values[..], alert.Snap();
    assert values[0..] == before;
    var check := checker.Check(values, 0);
    assert values[..] == values[0..] && before[0..] == before;
    if values.Length >= n { DecisionOfCheck(snap.event, before, check, times, n, checker.bounds); }
    if check.firing == 0 && check.firingFor == 0 {
      if values.Length < n { return IndexOutOfRange; }
      alert.event := alert.event.(params := alert.event.params.(normal := values[values.Length - n]));
      ParamsFirst(db.state, snap, Close(times[|times| - n], alert.event.params));
      var closed := db.CloseAlert(alert, times[|times| - n]);
      return Ended(closed);
    }
    var at := times[|times| - 1];
    var ok := true;
    if check.firingFor == n && at - alert.event.createdAt >= HOUR {
      alert.event := alert.event.(params := alert.event.params.(current := values[values.Length - 1]));
      ParamsFirst(db.state, snap, Remind(at, alert.event.params));
      ok := db.RemindAboutAlert(alert, at);
    }
    r := Ended(ok);
  }

  /** The state after the verdict on a series without an open alert. */
  function AfterVerdict(db: Db, project: nat, read: Option<Snapshot>, verdict: Verdict): Db {
    match verdict
    case Nothing => db
    case Act(action) => if read.Some? then AfterAction(db, read.value, Some(action)) else db
    case NewAlert(event) => WithAlert(db, MetricKind, project, 0, event)
  }

  predicate VerdictSucceeds(db: Db, project: nat, read: Option<Snapshot>, verdict: Verdict) {
    match verdict
    case Nothing => true
    case Act(action) => read.Some? && ActionSucceeds(db, read.value, Some(action))
    case NewAlert(event) => Taken(db, project, 0) || event.time != 0
  }

  lemma VerdictKeepsGood(db: Db, project: nat, read: Snapshot, values: seq<Float>, times: seq<nat>, n: nat, bounds: Bounds)
    requires 0 < n && |values| == |times| && read.kind == MetricKind && read.event.status == Closed
    ensures KeepsGood(db, AfterVerdict(db, project, Some(read), ClosedVerdict(Some(read.event), values, times, n, bounds)), read)
  {
    var verdict := ClosedVerdict(Some(read.event), values, times, n, bounds);
    match verdict
    case Nothing =>
    case Act(action) =>
      VerdictsAllowed(read.event, values, times, n, bounds);
      AllowedKeepsGood(db, read, action);
    case NewAlert(event) => NewAlertKeepsGood(db, MetricKind, project, 0, event);
  }

  method CheckTrimmed(checker: Checker, values: array<Float>) returns (check: CheckResult)
    requires checker.duration > 0
    modifies values
    ensures var input := old(values[..])[TrimIndex(old(values[..]))..];
      && (check.firing != 0 <==> AllOut(input, checker.bounds, checker.duration))
      && (check.firing != 0 ==>
           && check.firingFor == checker.duration == |check.values| <= |old(values[..])|
           && MetricParams(check.firing, check.values[0], check.values[0], Num(0.0), check.firingFor)
              == Update(checker.bounds, LastFilled(input, checker.duration)))
  {
    ghost var before := values[..];
    var index := FindTrimIndex(values);
    assert values[index..] == before[index..];
    check := checker.Check(values, index);
  }

  method CheckClosedAlert(db: Database, project: nat, alert: Alert?, checker: Checker, values: array<Float>, times: seq<nat>)
    returns (ok: bool)
    requires db.state.nextEvent > 0 && db.state.nextAlert !in db.state.alerts
    requires 0 < checker.duration && values.Length == |times|
    modifies db, values, if alert == null then {} else {alert}
    ensures alert == null ==> db.state == AfterVerdict(old(db.state), project, None,
      ClosedVerdict(None, old(values[..]), times, checker.duration, checker.bounds))
    ensures alert != null ==> db.state == AfterVerdict(old(db.state), project, Some(old(alert.Snap())),
      ClosedVerdict(Some(old(alert.event)), old(values[..]), times, checker.duration, checker.bounds))
    ensures var read := if alert == null then None else Some(old(alert.Snap()));
      ok <==> VerdictSucceeds(old(db.state), project, read,
        ClosedVerdict(if alert == null then None else Some(old(alert.event)), old(values[..]), times, checker.duration, checker.bounds))
  {
    ok := true;
    var check := CheckTrimmed(checker, values);
    if check.firing == 0 { return; }
    var at := times[|times| - check.firingFor];
    var params := MetricParams(check.firing, check.values[0], check.values[0], Num(0.0), check.firingFor);
    if alert != null && at - alert.event.createdAt < 8 * HOUR {
      alert.event := alert.event.(params := params);
      ok := db.ReopenAlert(alert, at);
      return;
    }
    var created := new Alert(0, MetricKind, project, 0, 0, Event(0, 0, Created, Open, at, 0, params));
    ok := db.CreateAlert(created);
  }

  lemma NewSeriesKeepsGood(db: Db, project: nat, values: seq<Float>, times: seq<nat>, n: nat, bounds: Bounds)
    requires 0 < n && |values| == |times|
    ensures KeepsGoodAlone(db, AfterVerdict(db, project, None, ClosedVerdict(None, values, times, n, bounds)))
  {
    var verdict := ClosedVerdict(None, values, times, n, bounds);
    if verdict.NewAlert? { NewAlertKeepsGood(db, MetricKind, project, 0, verdict.event); }
  }

  /** An open alert, and fewer points than are to be checked. */
  predicate OutOfRange(read: Option<Snapshot>, length: nat, n: nat) {
    read.Some? && read.value.event.status == Open && length < n
  }

  /** The state after the check of a series. */
  function AfterCheck(db: Db, project: nat, read: Option<Snapshot>, values: seq<Float>, times: seq<nat>, n: nat, bounds: Bounds): Db
    requires 0 < n && |values| == |times|
    requires read.Some? && read.value.event.status == Open ==> read.value.event.params.MetricParams?
  {
    if OutOfRange(read, |values|, n) then db
    else if read.None? then AfterVerdict(db, project, None, ClosedVerdict(None, values, times, n, bounds))
    else if read.value.event.status == Open then
      AfterAction(db, read.value, OpenDecision(read.value.event, values, times, n, bounds))
    else AfterVerdict(db, project, read, ClosedVerdict(Some(read.value.event), values, times, n, bounds))
  }

  /** The manager has found the alert of the series, or none. Whatever it then does keeps the
      invariant of the protocol. */
  method CheckTimeseries(db: Database, project: nat, alert: Alert?, checker: Checker, values: array<Float>, times: seq<nat>)
    returns (r: Ending)
    requires db.state.nextEvent > 0 && db.state.nextAlert !in db.state.alerts
    requires 0 < checker.duration && values.Length == |times|
    requires alert != null ==> alert.kind == MetricKind
    requires alert != null && alert.event.status == Open ==> alert.event.params.MetricParams?
    modifies db, values, if alert == null then {} else {alert}
    ensures r.IndexOutOfRange? <==>
      OutOfRange(if alert == null then None else Some(old(alert.Snap())), values.Length, checker.duration)
    ensures db.state == AfterCheck(old(db.state), project, if alert == null then None else Some(old(alert.Snap())),
                                   old(values[..]), times, checker.duration, checker.bounds)
    ensures alert == null ==> KeepsGoodAlone(old(db.state), db.state)
    ensures alert != null ==> KeepsGood(old(db.state), db.state, old(alert.Snap()))
  {
    var n, bounds := checker.duration, checker.bounds;
    if alert == null {
      NewSeriesKeepsGood(db.state, project, values[..], times, n, bounds);
      var ok := CheckClosedAlert(db, project, null, checker, values, times);
      r := Ended(ok);
    } else if alert.event.status == Open {
      if n <= values.Length { DecisionKeepsGood(db.state, alert.Snap(), values[..], times, n, bounds); }
      r := CheckOpenAlert(db, alert, checker, values, times);
    } else {
      VerdictKeepsGood(db.state, project, alert.Snap(), values[..], times, n, bounds);
      var ok := CheckClosedAlert(db, project, alert, checker, values, times);
      r := Ended(ok);
    }
  }

  // ---------------------------------------------------------------------------
  // The job that follows errors
  // ---------------------------------------------------------------------------

  /** The job has found the alert of the span's group, or none, and counted its spans. */
  method HandleError(db: Database, project: nat, groupID: nat, alert: Alert?, time: nat, spanID: nat, spanCount: nat)
    returns (ok: bool)
    requires db.state.nextEvent > 0 && db.state.nextAlert !in db.state.alerts
    requires alert != null ==> alert.event.params.ErrorParams? && alert.event.params.spanCount < LAST_RUNG
    modifies db, if alert == null then {} else {alert}
    ensures alert != null || db.state ==
      WithAlert(old(db.state), ErrorKind, project, groupID, Event(0, 0, Created, Open, time, 0, ErrorParams(spanID, 1)))
    ensures alert != null ==>
      var read, params := old(alert.Snap()), ErrorParams(spanID, spanCount);
      db.state ==
        if read.event.status == Closed || Triggers(read.event.params.spanCount, spanCount)
        then Committed(old(db.state), read, Derived(read.event, Repeat(time, params)))
        else Touched(old(db.state), read, time, params)
    ensures ok <==>
      if alert == null then Taken(old(db.state), project, groupID) || time != 0
      else
        var read := old(alert.Snap());
        (read.event.status == Open && !Triggers(read.event.params.spanCount, spanCount)) || (Current(old(db.state), read) && time != 0)
    ensures alert == null ==> KeepsGoodAlone(old(db.state), db.state)
    ensures alert != null && alert.kind == ErrorKind ==> KeepsGood(old(db.state), db.state, old(alert.Snap()))
  {
    if alert == null {
      var created := new Alert(0, ErrorKind, project, groupID, 0,
        Event(0, 0, Created, Open, time, 0, ErrorParams(spanID, 1)));
      NewAlertKeepsGood(db.state, ErrorKind, project, groupID, created.event);
      ok := db.CreateAlert(created);
      return;
    }
    var threshold := NextSpanCountThreshold(alert.event.params.spanCount);
    TriggersAtThreshold(alert.event.params.spanCount, threshold, spanCount);
    var triggered := spanCount >= threshold || alert.event.status == Closed;
    var params := ErrorParams(spanID, spanCount);
    if alert.kind == ErrorKind {
      AllowedKeepsGood(db.state, alert.Snap(), Repeat(time, params));
      TouchedKeepsGood(db.state, alert.Snap(), time, params);
    }
    if !triggered {
      db.state := Touched(db.state, alert.Snap(), time, params);
      return true;
    }
    ok := db.CommitEvent(alert,
      alert.event.(name := Recurring, status := Open, time := time, createdAt := time, params := params));
  }
}
