/** The life of alerts in the database, under any interleaving of its writers: the manager that
    watches metrics, the users, and the job that follows errors. Each writer reads an alert with
    its event, decides, and commits a new event together with a compare-and-swap of the alert's
    event id. */
module AlertProtocol {
  import opened Basics
  import opened MetricCheck

  datatype Status = Open | Closed

  datatype EventName = Created | StatusChanged | Recurring

  datatype Kind = ErrorKind | MetricKind

  datatype Params =
    | ErrorParams(spanID: nat, spanCount: nat)
    | MetricParams(firing: int, initial: Float, current: Float, normal: Float, numPointFiring: nat)

  /** Times count nanoseconds from the zero time. */
  datatype Event = Event(alert: nat, userID: nat, name: EventName, status: Status,
                         time: nat, createdAt: nat, params: Params)

  /** A committed event, and the event that its writer had read and copied, or 0. */
  datatype Link = Link(event: nat, basis: nat)

  /** A row of the alerts. No event id is 0. The program does not store the log: it records
      which events were committed for the alert, in this order. */
  datatype Row = Row(kind: Kind, project: nat, dedup: nat, eventID: nat, log: seq<Link>)

  /** The tables. Ids come from counters that only go up. */
  datatype Db = Db(alerts: map<nat, Row>, events: map<nat, Event>, nextAlert: nat, nextEvent: nat)

  /** What a writer has read: the row and its event. */
  datatype Snapshot = Snapshot(alert: nat, kind: Kind, eventID: nat, event: Event)

  datatype Action =
    | UserChange(status: Status, userID: nat)
    | Close(at: nat, params: Params)
    | Reopen(at: nat, params: Params)
    | Remind(at: nat, params: Params)
    | Repeat(at: nat, params: Params)

  const HOUR: nat := 3_600_000_000_000

  /** When a writer that has read this event takes the action. */
  predicate Allowed(kind: Kind, read: Event, action: Action) {
    match action
    case UserChange(status, _) => read.status != status
    case Close(_, _) => kind == MetricKind && read.status == Open
    case Reopen(at, _) => kind == MetricKind && read.status != Open && at - read.createdAt < 8 * HOUR
    case Remind(at, _) => kind == MetricKind && read.status == Open && at - read.createdAt >= HOUR
    case Repeat(_, _) => kind == ErrorKind
  }

  /** The event that the action makes from the event that was read. */
  function Derived(read: Event, action: Action): Event {
    match action
    case UserChange(status, userID) => read.(userID := userID, name := StatusChanged, status := status)
    case Close(at, params) =>
      read.(userID := 0, name := StatusChanged, status := Closed, createdAt := at, params := params)
    case Reopen(at, params) =>
      read.(userID := 0, name := StatusChanged, status := Open, time := at, createdAt := at, params := params)
    case Remind(at, params) => read.(name := Recurring, createdAt := at, params := params)
    case Repeat(at, params) => read.(name := Recurring, status := Open, time := at, createdAt := at, params := params)
  }

  /** An event without a time is refused; one without a time of creation gets its time. */
  function Stamped(event: Event): Event {
    if event.createdAt == 0 then event.(createdAt := event.time) else event
  }

  /** The transaction: insert the event, then swap the alert's event id if it is still the one
      that was read. Otherwise everything is rolled back, but the id is used up. */
  function Committed(db: Db, read: Snapshot, event: Event): Db {
    if event.time == 0 then db
    else if read.alert in db.alerts && db.alerts[read.alert].eventID == read.eventID then
      var id, row := db.nextEvent, db.alerts[read.alert];
      var swapped := row.(eventID := id, log := row.log + [Link(id, read.eventID)]);
      Db(db.alerts[read.alert := swapped], db.events[id := Stamped(event)], db.nextAlert, id + 1)
    else db.(nextEvent := db.nextEvent + 1)
  }

  /** The alert still names the event that was read. */
  predicate Current(db: Db, read: Snapshot) {
    read.alert in db.alerts && db.alerts[read.alert].eventID == read.eventID
  }

  predicate Taken(db: Db, project: nat, dedup: nat) {
    exists a :: a in db.alerts && db.alerts[a].project == project && db.alerts[a].dedup == dedup
  }

  /** The transaction that creates an alert with its first event. The index on project and
      hash may refuse the row; then nothing else is done. */
  function WithAlert(db: Db, kind: Kind, project: nat, dedup: nat, event: Event): Db {
    if Taken(db, project, dedup) then db.(nextAlert := db.nextAlert + 1)
    else if event.time == 0 then db.(nextAlert := db.nextAlert + 1)
    else
      var a, id := db.nextAlert, db.nextEvent;
      Db(db.alerts[a := Row(kind, project, dedup, id, [Link(id, 0)])],
         db.events[id := Stamped(event).(alert := a, name := Created)], a + 1, id + 1)
  }

  /** The update in place of an error alert's event, by its id alone. */
  function Touched(db: Db, read: Snapshot, at: nat, params: Params): Db {
    if read.eventID in db.events then
      db.(events := db.events[read.eventID := db.events[read.eventID].(time := at, createdAt := at, params := params)])
    else db
  }

  // ---------------------------------------------------------------------------
  // Runs
  // ---------------------------------------------------------------------------

  /** The database and what each writer has read last. */
  datatype System = System(db: Db, writers: map<nat, Snapshot>)

  datatype Step =
    | Read(writer: nat, alert: nat)
    | Commit(writer: nat, action: Action)
    | Touch(writer: nat, at: nat, params: Params)
    | Create(kind: Kind, project: nat, dedup: nat, event: Event)

  /** A step that its writer may take. Metric alerts are all created with the hash 0. */
  predicate Enabled(sys: System, step: Step) {
    match step
    case Read(_, a) => a in sys.db.alerts && sys.db.alerts[a].eventID in sys.db.events
    case Commit(w, action) =>
      w in sys.writers && Allowed(sys.writers[w].kind, sys.writers[w].event, action)
    case Touch(w, _, _) => w in sys.writers && sys.writers[w].kind == ErrorKind
    case Create(kind, _, dedup, _) => kind == MetricKind ==> dedup == 0
  }

  function After(sys: System, step: Step): System
    requires Enabled(sys, step)
  {
    match step
    case Read(w, a) =>
      var row := sys.db.alerts[a];
      sys.(writers := sys.writers[w := Snapshot(a, row.kind, row.eventID, sys.db.events[row.eventID])])
    case Commit(w, action) =>
      sys.(db := Committed(sys.db, sys.writers[w], Derived(sys.writers[w].event, action)))
    case Touch(w, at, params) => sys.(db := Touched(sys.db, sys.writers[w], at, params))
    case Create(kind, project, dedup, event) => sys.(db := WithAlert(sys.db, kind, project, dedup, event))
  }

  const EMPTY := System(Db(map[], map[], 1, 1), map[])

  /** The state after the steps in this order; a step that is not enabled is not taken. */
  function Run(steps: seq<Step>): System {
    if steps == [] then EMPTY
    else
      var before, step := Run(steps[..|steps| - 1]), steps[|steps| - 1];
      if Enabled(before, step) then After(before, step) else before
  }

  // ---------------------------------------------------------------------------
  // What every step keeps
  // ---------------------------------------------------------------------------

  /** How an event relates to the event that it replaced. */
  predicate Follows(kind: Kind, prior: Event, event: Event) {
    && (event.name == StatusChanged ==> event.status != prior.status)
    && (event.name == Recurring ==> event.status == Open)
    && (event.name == Recurring && kind == MetricKind ==>
         prior.status == Open && event.createdAt >= prior.createdAt + HOUR)
  }

  /** The log of an alert is a chain: it begins with the event that created the alert, each
      event was copied from the one before it, and the last one is the one the alert names. */
  predicate Chained(events: map<nat, Event>, a: nat, row: Row) {
    && |row.log| > 0 && row.log[|row.log| - 1].event == row.eventID
    && (forall i :: 0 <= i < |row.log| ==> LinkOk(events, a, row, i))
  }

  predicate LinkOk(events: map<nat, Event>, a: nat, row: Row, i: nat)
    requires i < |row.log|
  {
    var e := row.log[i].event;
    && e in events && events[e].alert == a && (events[e].name == Created <==> i == 0)
    && (if i == 0 then row.log[i].basis == 0
        else
          var prior := row.log[i - 1].event;
          row.log[i].basis == prior && prior < e && prior in events && Follows(row.kind, events[prior], events[e]))
  }

  /** The event is in the log of its alert. */
  predicate Logged(alerts: map<nat, Row>, events: map<nat, Event>, e: nat)
    requires e in events
  {
    events[e].alert in alerts && InLog(alerts[events[e].alert].log, e)
  }

  predicate InLog(log: seq<Link>, e: nat) {
    exists i :: 0 <= i < |log| && log[i].event == e
  }

  /** What a writer has read is an event of its alert, whose status, and for a metric alert
      everything else, is still the same. */
  predicate ReadFrom(alerts: map<nat, Row>, events: map<nat, Event>, read: Snapshot) {
    && read.alert in alerts && read.kind == alerts[read.alert].kind
    && read.eventID in events && events[read.eventID].alert == read.alert == read.event.alert
    && events[read.eventID].status == read.event.status
    && (read.kind == MetricKind ==> events[read.eventID] == read.event)
  }

  /** No two alerts of a project have the same hash, and metric alerts have the hash 0. */
  predicate Deduped(alerts: map<nat, Row>) {
    && (forall a, b :: a in alerts && b in alerts && a != b && alerts[a].project == alerts[b].project ==>
         alerts[a].dedup != alerts[b].dedup)
    && (forall a :: a in alerts && alerts[a].kind == MetricKind ==> alerts[a].dedup == 0)
  }

  predicate AllChained(db: Db) {
    forall a :: a in db.alerts ==> a < db.nextAlert && Chained(db.events, a, db.alerts[a])
  }

  predicate AllLogged(db: Db) {
    forall e :: e in db.events ==> e < db.nextEvent && Logged(db.alerts, db.events, e)
  }

  predicate AllRead(db: Db, writers: map<nat, Snapshot>) {
    forall w :: w in writers ==> ReadFrom(db.alerts, db.events, writers[w])
  }

  predicate Good(sys: System) {
    AllChained(sys.db) && AllLogged(sys.db) && AllRead(sys.db, sys.writers) && Deduped(sys.db.alerts) && sys.db.nextEvent > 0
  }

  /** More events, or other times and parameters of an error alert's events, leave its chain. */
  lemma ChainStays(before: map<nat, Event>, after: map<nat, Event>, a: nat, row: Row)
    requires Chained(before, a, row)
    requires forall e :: e in before ==> e in after && Unmoved(row.kind, before[e], after[e])
    ensures Chained(after, a, row)
  {
    forall i | 0 <= i < |row.log| ensures LinkOk(after, a, row, i) {
      assert LinkOk(before, a, row, i);
    }
  }

  predicate Unmoved(kind: Kind, before: Event, after: Event) {
    && after.alert == before.alert && after.name == before.name && after.status == before.status
    && (kind == MetricKind ==> after == before)
  }

  /** A chain grows by an event copied from its last one. */
  lemma ChainGrows(events: map<nat, Event>, after: map<nat, Event>, a: nat, row: Row, id: nat)
    requires Chained(events, a, row) && row.eventID < id
    requires forall e :: e in events ==> e in after && after[e] == events[e]
    requires id in after && after[id].alert == a && after[id].name != Created
    requires row.eventID in events && Follows(row.kind, events[row.eventID], after[id])
    ensures Chained(after, a, row.(eventID := id, log := row.log + [Link(id, row.eventID)]))
  {
    var grown := row.(eventID := id, log := row.log + [Link(id, row.eventID)]);
    forall i | 0 <= i < |grown.log| ensures LinkOk(after, a, grown, i) {
      if i < |row.log| { assert LinkOk(events, a, row, i); }
    }
  }

  lemma DerivedFollows(kind: Kind, read: Event, action: Action)
    requires Allowed(kind, read, action)
    ensures Follows(kind, read, Stamped(Derived(read, action))) && Derived(read, action).name != Created
  {
  }

  lemma CommitKeepsChains(db: Db, read: Snapshot, action: Action)
    requires AllChained(db) && AllLogged(db)
    requires ReadFrom(db.alerts, db.events, read) && Allowed(read.kind, read.event, action)
    ensures AllChained(Committed(db, read, Derived(read.event, action)))
  {
    var event := Derived(read.event, action);
    var after := Committed(db, read, event);
    var row := db.alerts[read.alert];
    if event.time != 0 && row.eventID == read.eventID {
      DerivedFollows(read.kind, read.event, action);
      forall a | a in after.alerts ensures Chained(after.events, a, after.alerts[a]) {
        if a == read.alert {
          assert Follows(row.kind, db.events[row.eventID], Stamped(event));
          ChainGrows(db.events, after.events, a, row, db.nextEvent);
        } else {
          ChainStays(db.events, after.events, a, db.alerts[a]);
        }
      }
    }
  }

  /** Rows that keep what they log leave their events logged. */
  lemma StillLogged(alerts: map<nat, Row>, after: map<nat, Row>, events: map<nat, Event>, later: map<nat, Event>, e: nat)
    requires e in events && Logged(alerts, events, e) && e in later && later[e].alert == events[e].alert
    requires forall a :: a in alerts ==> a in after && alerts[a].log <= after[a].log
    ensures Logged(after, later, e)
  {
    var a := events[e].alert;
    var i :| 0 <= i < |alerts[a].log| && alerts[a].log[i].event == e;
    assert after[a].log[i].event == e;
  }

  lemma NewIsLogged(log: seq<Link>, link: Link)
    ensures InLog(log + [link], link.event)
  {
    assert (log + [link])[|log|] == link;
  }

  lemma CommitKeepsLogs(db: Db, read: Snapshot, event: Event)
    requires AllLogged(db) && event.alert == read.alert
    ensures AllLogged(Committed(db, read, event))
  {
    var after := Committed(db, read, event);
    forall e | e in after.events ensures e < after.nextEvent && Logged(after.alerts, after.events, e) {
      if e in db.events {
        StillLogged(db.alerts, after.alerts, db.events, after.events, e);
      } else {
        NewIsLogged(db.alerts[read.alert].log, Link(e, read.eventID));
      }
    }
  }

  lemma CommitKeepsReads(db: Db, read: Snapshot, event: Event, writers: map<nat, Snapshot>)
    requires AllLogged(db) && AllRead(db, writers)
    ensures AllRead(Committed(db, read, event), writers)
  {
    var after := Committed(db, read, event);
    forall w | w in writers ensures ReadFrom(after.alerts, after.events, writers[w]) {
      assert ReadFrom(db.alerts, db.events, writers[w]);
    }
  }

  lemma CommitKeepsDedup(db: Db, read: Snapshot, event: Event)
    requires Deduped(db.alerts)
    ensures Deduped(Committed(db, read, event).alerts)
  {
  }

  /** A commit of anything that was read at some time, by whichever writer. */
  lemma CommitOfReadKeepsGood(db: Db, read: Snapshot, action: Action, writers: map<nat, Snapshot>)
    requires Good(System(db, writers))
    requires ReadFrom(db.alerts, db.events, read) && Allowed(read.kind, read.event, action)
    ensures Good(System(Committed(db, read, Derived(read.event, action)), writers))
  {
    var event := Derived(read.event, action);
    CommitKeepsChains(db, read, action);
    CommitKeepsLogs(db, read, event);
    CommitKeepsDedup(db, read, event);
    CommitKeepsReads(db, read, event, writers);
  }

  lemma CommitKeepsGood(sys: System, w: nat, action: Action)
    requires Good(sys) && Enabled(sys, Commit(w, action))
    ensures Good(After(sys, Commit(w, action)))
  {
    CommitOfReadKeepsGood(sys.db, sys.writers[w], action, sys.writers);
  }

  lemma TouchMovesLittle(db: Db, read: Snapshot, at: nat, params: Params, e: nat)
    requires ReadFrom(db.alerts, db.events, read) && read.kind == ErrorKind && e in db.events
    ensures var after := Touched(db, read, at, params);
      && e in after.events && Unmoved(ErrorKind, db.events[e], after.events[e])
      && (db.events[e].alert != read.alert ==> after.events[e] == db.events[e])
  {
  }

  lemma TouchOfReadKeepsGood(db: Db, read: Snapshot, at: nat, params: Params, writers: map<nat, Snapshot>)
    requires Good(System(db, writers)) && ReadFrom(db.alerts, db.events, read) && read.kind == ErrorKind
    ensures Good(System(Touched(db, read, at, params), writers))
  {
    var after := Touched(db, read, at, params);
    forall a | a in db.alerts ensures Chained(after.events, a, db.alerts[a]) {
      TouchKeepsChain(db, read, at, params, a);
    }
    forall e | e in after.events ensures Logged(after.alerts, after.events, e) {
      TouchMovesLittle(db, read, at, params, e);
      StillLogged(db.alerts, db.alerts, db.events, after.events, e);
    }
    forall v | v in writers ensures ReadFrom(after.alerts, after.events, writers[v]) {
      TouchMovesLittle(db, read, at, params, writers[v].eventID);
    }
  }

  lemma TouchKeepsGood(sys: System, w: nat, at: nat, params: Params)
    requires Good(sys) && Enabled(sys, Touch(w, at, params))
    ensures Good(After(sys, Touch(w, at, params)))
  {
    TouchOfReadKeepsGood(sys.db, sys.writers[w], at, params, sys.writers);
  }

  lemma TouchKeepsChain(db: Db, read: Snapshot, at: nat, params: Params, a: nat)
    requires ReadFrom(db.alerts, db.events, read) && read.kind == ErrorKind
    requires a in db.alerts && Chained(db.events, a, db.alerts[a])
    ensures Chained(Touched(db, read, at, params).events, a, db.alerts[a])
  {
    var row, after := db.alerts[a], Touched(db, read, at, params);
    forall i | 0 <= i < |row.log| ensures LinkOk(after.events, a, row, i) {
      assert LinkOk(db.events, a, row, i);
      TouchMovesLittle(db, read, at, params, row.log[i].event);
      if i > 0 {
        assert LinkOk(db.events, a, row, i - 1);
        TouchMovesLittle(db, read, at, params, row.log[i - 1].event);
      }
    }
  }

  lemma FirstLink(events: map<nat, Event>, a: nat, row: Row, id: nat)
    requires row.log == [Link(id, 0)] && row.eventID == id
    requires id in events && events[id].alert == a && events[id].name == Created
    ensures Chained(events, a, row)
  {
  }

  lemma CreateKeepsGood(sys: System, kind: Kind, project: nat, dedup: nat, event: Event)
    requires Good(sys) && Enabled(sys, Create(kind, project, dedup, event))
    ensures Good(After(sys, Create(kind, project, dedup, event)))
  {
    var db := sys.db;
    if !Taken(db, project, dedup) && event.time != 0 {
      CreateKeepsChains(db, kind, project, dedup, event);
      CreateKeepsLogs(db, kind, project, dedup, event);
      CreateKeepsDedup(db, kind, project, dedup, event);
      CreateKeepsReads(sys, kind, project, dedup, event);
    }
  }

  lemma CreateKeepsReads(sys: System, kind: Kind, project: nat, dedup: nat, event: Event)
    requires Good(sys)
    ensures var after := WithAlert(sys.db, kind, project, dedup, event);
      forall w :: w in sys.writers ==> ReadFrom(after.alerts, after.events, sys.writers[w])
  {
    var after := WithAlert(sys.db, kind, project, dedup, event);
    forall w | w in sys.writers ensures ReadFrom(after.alerts, after.events, sys.writers[w]) {
      assert ReadFrom(sys.db.alerts, sys.db.events, sys.writers[w]);
    }
  }

  lemma CreateKeepsChains(db: Db, kind: Kind, project: nat, dedup: nat, event: Event)
    requires AllChained(db) && AllLogged(db)
    ensures AllChained(WithAlert(db, kind, project, dedup, event))
  {
    var after := WithAlert(db, kind, project, dedup, event);
    forall a | a in after.alerts ensures Chained(after.events, a, after.alerts[a]) {
      if a in db.alerts {
        ChainStays(db.events, after.events, a, db.alerts[a]);
      } else {
        FirstLink(after.events, a, after.alerts[a], db.nextEvent);
      }
    }
  }

  lemma CreateKeepsLogs(db: Db, kind: Kind, project: nat, dedup: nat, event: Event)
    requires AllChained(db) && AllLogged(db)
    ensures AllLogged(WithAlert(db, kind, project, dedup, event))
  {
    var after := WithAlert(db, kind, project, dedup, event);
    forall e | e in after.events ensures Logged(after.alerts, after.events, e) {
      if e in db.events {
        StillLogged(db.alerts, after.alerts, db.events, after.events, e);
      } else {
        NewIsLogged([], Link(e, 0));
        assert [] + [Link(e, 0)] == after.alerts[db.nextAlert].log;
      }
    }
  }

  lemma CreateKeepsDedup(db: Db, kind: Kind, project: nat, dedup: nat, event: Event)
    requires Deduped(db.alerts) && (kind == MetricKind ==> dedup == 0)
    requires forall a :: a in db.alerts ==> a < db.nextAlert
    ensures Deduped(WithAlert(db, kind, project, dedup, event).alerts)
  {
  }

  /** Every step of every writer keeps all of it. */
  lemma StepKeepsGood(sys: System, step: Step)
    requires Good(sys) && Enabled(sys, step)
    ensures Good(After(sys, step))
  {
    match step
    case Read(w, a) => ReadKeepsGood(sys, w, a);
    case Commit(w, action) => CommitKeepsGood(sys, w, action);
    case Touch(w, at, params) => TouchKeepsGood(sys, w, at, params);
    case Create(kind, project, dedup, event) => CreateKeepsGood(sys, kind, project, dedup, event);
  }

  lemma ReadKeepsGood(sys: System, w: nat, a: nat)
    requires Good(sys) && Enabled(sys, Read(w, a))
    ensures Good(After(sys, Read(w, a)))
  {
    var row := sys.db.alerts[a];
    assert Chained(sys.db.events, a, row);
    assert LinkOk(sys.db.events, a, row, |row.log| - 1);
  }

  lemma {:induction false} RunGood(steps: seq<Step>)
    ensures Good(Run(steps))
  {
    if steps != [] {
      RunGood(steps[..|steps| - 1]);
      var before, step := Run(steps[..|steps| - 1]), steps[|steps| - 1];
      if Enabled(before, step) { StepKeepsGood(before, step); }
    }
  }

  // ---------------------------------------------------------------------------
  // The history of an alert
  // ---------------------------------------------------------------------------

  lemma LoggedAtOwn(db: Db, a: nat, e: nat)
    requires AllChained(db) && AllLogged(db) && a in db.alerts && e in db.events
    ensures db.events[e].alert == a <==> InLog(db.alerts[a].log, e)
  {
    if InLog(db.alerts[a].log, e) {
      var i :| 0 <= i < |db.alerts[a].log| && db.alerts[a].log[i].event == e;
      assert LinkOk(db.events, a, db.alerts[a], i);
    } else {
      assert Logged(db.alerts, db.events, e);
    }
  }

  /** The committed events of the alert form one chain: it begins with the event that created
      the alert, each event was copied from the one that it replaced and follows it, the last
      one is the one that the alert names, and the alert has no other events. */
  ghost predicate OneChain(db: Db, a: nat) {
    a in db.alerts &&
    var row := db.alerts[a];
    && |row.log| > 0 && row.log[0].basis == 0 && row.log[|row.log| - 1].event == row.eventID
    && (forall i {:trigger row.log[i].event} :: 0 <= i < |row.log| ==> row.log[i].event in db.events)
    && (forall i :: 0 < i < |row.log| ==> Replaces(db, row, i))
    && (forall e :: e in db.events ==> (db.events[e].alert == a <==> InLog(row.log, e)))
  }

  predicate Replaces(db: Db, row: Row, i: nat)
    requires 0 < i < |row.log|
  {
    var prior, e := row.log[i - 1].event, row.log[i].event;
    && row.log[i].basis == prior < e && prior in db.events && e in db.events
    && Follows(row.kind, db.events[prior], db.events[e])
  }

  lemma GoodIsOneChain(db: Db, a: nat)
    requires AllChained(db) && AllLogged(db) && a in db.alerts
    ensures OneChain(db, a)
  {
    var row := db.alerts[a];
    assert Chained(db.events, a, row) && LinkOk(db.events, a, row, 0);
    forall i | 0 <= i < |row.log| ensures row.log[i].event in db.events && (i > 0 ==> Replaces(db, row, i)) {
      assert LinkOk(db.events, a, row, i);
    }
    forall e | e in db.events ensures db.events[e].alert == a <==> InLog(row.log, e) {
      LoggedAtOwn(db, a, e);
    }
  }

  /** Whatever the writers do and however they interleave: one chain for every alert. */
  lemma {:induction false} SingleChain(steps: seq<Step>, a: nat)
    requires a in Run(steps).db.alerts
    ensures OneChain(Run(steps).db, a)
  {
    RunGood(steps);
    GoodIsOneChain(Run(steps).db, a);
  }

  lemma {:induction false} ChainIncreases(db: Db, a: nat, i: nat, j: nat)
    requires OneChain(db, a) && i < j < |db.alerts[a].log|
    ensures db.alerts[a].log[i].event < db.alerts[a].log[j].event
    decreases j
  {
    assert Replaces(db, db.alerts[a], j);
    if i < j - 1 { ChainIncreases(db, a, i, j - 1); }
  }

  lemma BasisIsOwn(db: Db, a: nat, i: nat)
    requires OneChain(db, a) && i < |db.alerts[a].log| && db.alerts[a].log[i].basis != 0
    ensures var x := db.alerts[a].log[i].basis;
      i > 0 && x == db.alerts[a].log[i - 1].event && x in db.events && db.events[x].alert == a
  {
    assert i > 0 && Replaces(db, db.alerts[a], i);
    assert InLog(db.alerts[a].log, db.alerts[a].log[i - 1].event);
  }

  lemma SameBasisSameLink(db: Db, a: nat, i: nat, j: nat)
    requires OneChain(db, a) && i < |db.alerts[a].log| && j < |db.alerts[a].log|
    requires db.alerts[a].log[i].basis == db.alerts[a].log[j].basis != 0
    ensures i == j
  {
    BasisIsOwn(db, a, i);
    BasisIsOwn(db, a, j);
    if i < j {
      ChainIncreases(db, a, i - 1, j - 1);
    } else if j < i {
      ChainIncreases(db, a, j - 1, i - 1);
    }
  }

  /** No two committed events of any run were copied from the same event. */
  lemma {:induction false} NoSharedBasis(steps: seq<Step>, a: nat, i: nat, b: nat, j: nat)
    requires a in Run(steps).db.alerts && i < |Run(steps).db.alerts[a].log|
    requires b in Run(steps).db.alerts && j < |Run(steps).db.alerts[b].log|
    requires Run(steps).db.alerts[a].log[i].basis == Run(steps).db.alerts[b].log[j].basis != 0
    ensures a == b && i == j
  {
    var db := Run(steps).db;
    SingleChain(steps, a);
    SingleChain(steps, b);
    BasisIsOwn(db, a, i);
    BasisIsOwn(db, b, j);
    SameBasisSameLink(db, a, i, j);
  }

  /** What a writer has read is not newer than the event that the alert names. */
  lemma ReadIsNotNewer(db: Db, read: Snapshot)
    requires AllChained(db) && AllLogged(db) && ReadFrom(db.alerts, db.events, read)
    ensures read.eventID <= db.alerts[read.alert].eventID
  {
    var row := db.alerts[read.alert];
    GoodIsOneChain(db, read.alert);
    var i :| 0 <= i < |row.log| && row.log[i].event == read.eventID;
    if i < |row.log| - 1 { ChainIncreases(db, read.alert, i, |row.log| - 1); }
  }

  /** Another event has been committed since the writer has read the alert. */
  predicate Overtaken(sys: System, w: nat, read: Snapshot) {
    && w in sys.writers && sys.writers[w] == read
    && read.alert in sys.db.alerts && read.eventID < sys.db.alerts[read.alert].eventID
  }

  lemma StaysOvertaken(sys: System, step: Step, w: nat, read: Snapshot)
    requires Good(sys) && Enabled(sys, step) && Overtaken(sys, w, read) && !(step.Read? && step.writer == w)
    ensures Overtaken(After(sys, step), w, read)
  {
    if step.Commit? {
      var a := sys.writers[step.writer].alert;
      if a in sys.db.alerts {
        assert Chained(sys.db.events, a, sys.db.alerts[a]);
        assert LinkOk(sys.db.events, a, sys.db.alerts[a], |sys.db.alerts[a].log| - 1);
      }
    }
  }

  lemma {:induction false} OvertakenForGood(steps: seq<Step>, more: seq<Step>, w: nat, read: Snapshot)
    requires Overtaken(Run(steps), w, read)
    requires forall i :: 0 <= i < |more| ==> !(more[i].Read? && more[i].writer == w)
    ensures Overtaken(Run(steps + more), w, read)
    decreases |more|
  {
    if more == [] {
      assert steps + more == steps;
    } else {
      var last := |more| - 1;
      var before := steps + more[..last];
      assert (steps + more)[..|steps + more| - 1] == before;
      OvertakenForGood(steps, more[..last], w, read);
      RunGood(before);
      if Enabled(Run(before), more[last]) { StaysOvertaken(Run(before), more[last], w, read); }
    }
  }

  /** Event ids never come back: a writer that another one has overtaken commits nothing any more,
      whatever happens, until it reads the alert again. */
  lemma {:induction false} OvertakenNeverCommits(steps: seq<Step>, more: seq<Step>, w: nat, action: Action)
    requires w in Run(steps).writers
    requires var read := Run(steps).writers[w];
      read.alert in Run(steps).db.alerts && Run(steps).db.alerts[read.alert].eventID != read.eventID
    requires forall i :: 0 <= i < |more| ==> !(more[i].Read? && more[i].writer == w)
    ensures var sys := Run(steps + more); var after := Run(steps + more + [Commit(w, action)]);
      after.db.alerts == sys.db.alerts && after.db.events == sys.db.events
  {
    var read, all := Run(steps).writers[w], steps + more + [Commit(w, action)];
    RunGood(steps);
    ReadIsNotNewer(Run(steps).db, read);
    OvertakenForGood(steps, more, w, read);
    assert all[..|all| - 1] == steps + more;
  }

  /** All metric alerts are created with the hash 0, so a project never has two of them: the
      second one is refused, silently. */
  lemma {:induction false} OneMetricAlertPerProject(steps: seq<Step>, a: nat, b: nat)
    requires a in Run(steps).db.alerts && b in Run(steps).db.alerts
    requires Run(steps).db.alerts[a].kind == Run(steps).db.alerts[b].kind == MetricKind
    requires Run(steps).db.alerts[a].project == Run(steps).db.alerts[b].project
    ensures a == b
  {
    RunGood(steps);
  }

  /** The second one of a project is lost. */
  lemma SecondMetricAlertIsRefused(event: Event, second: Event)
    requires event.time != 0
    ensures Run([Create(MetricKind, 1, 0, event), Create(MetricKind, 1, 0, second)]).db.alerts.Keys == {1}
  {
    var first, steps := [Create(MetricKind, 1, 0, event)], [Create(MetricKind, 1, 0, event), Create(MetricKind, 1, 0, second)];
    assert first[..0] == [] && steps[..1] == first;
    assert Run(first) == After(EMPTY, first[0]);
    var alerts := Run(first).db.alerts;
    assert !Taken(EMPTY.db, 1, 0);
    assert alerts.Keys == {1} && alerts[1].project == 1 && alerts[1].dedup == 0;
    assert Taken(Run(first).db, 1, 0);
  }
}
