/** What the writers of alerts leave in the database: which event an alert names afterwards, field by
    field, and when nothing changes. */
module AlertOutcomes {
  import opened Basics
  import opened MetricCheck
  import opened AlertProtocol
  import opened AlertWriters
  import opened AntiFlapping

  // ---------------------------------------------------------------------------
  // The database before and after
  // ---------------------------------------------------------------------------

  /** Ids are numbered up. */
  predicate Numbered(db: Db) {
    (forall e :: e in db.events ==> e < db.nextEvent) && (forall a :: a in db.alerts ==> a < db.nextAlert)
  }

  lemma GoodIsNumbered(sys: System)
    requires Good(sys)
    ensures Numbered(sys.db)
  {
  }

  /** No alert and no event has changed. */
  predicate SameContents(before: Db, after: Db) {
    after.alerts == before.alerts && after.events == before.events
  }

  /** The alert names a new event, this one, which was copied from the one that it named before. All
      other alerts and events are the same. */
  predicate NamesNow(before: Db, after: Db, a: nat, event: Event) {
    && a in before.alerts && after.alerts.Keys == before.alerts.Keys
    && (forall b :: b in before.alerts && b != a ==> after.alerts[b] == before.alerts[b])
    && var row, id := after.alerts[a], after.alerts[a].eventID;
       && row == before.alerts[a].(eventID := id, log := before.alerts[a].log + [Link(id, before.alerts[a].eventID)])
       && id !in before.events && after.events == before.events[id := event]
  }

  /** A commit of an event copied from what was read; the id of its event is used up either way. */
  lemma CommitOutcome(db: Db, read: Snapshot, event: Event)
    requires Numbered(db)
    ensures if Current(db, read) && event.time != 0
      then NamesNow(db, Committed(db, read, event), read.alert,
                    event.(createdAt := if event.createdAt == 0 then event.time else event.createdAt))
      else SameContents(db, Committed(db, read, event))
    ensures Committed(db, read, event).nextEvent == if event.time == 0 then db.nextEvent else db.nextEvent + 1
  {
  }

  /** There is one more alert, which names one more event. */
  predicate OneMore(before: Db, after: Db, kind: Kind, project: nat, dedup: nat, event: Event) {
    var a, id := before.nextAlert, before.nextEvent;
    && a !in before.alerts && id !in before.events
    && after.alerts == before.alerts[a := Row(kind, project, dedup, id, [Link(id, 0)])]
    && after.events == before.events[id := event.(alert := a, name := Created)]
  }

  /** An alert is created unless the project has one with this hash, or the event no time; its id is used
      up either way. */
  lemma CreateOutcome(db: Db, kind: Kind, project: nat, dedup: nat, event: Event)
    requires Numbered(db)
    ensures var stamped := event.(createdAt := if event.createdAt == 0 then event.time else event.createdAt);
      var after := WithAlert(db, kind, project, dedup, event);
      if event.time != 0 && !(exists a :: a in db.alerts && db.alerts[a].project == project && db.alerts[a].dedup == dedup)
      then OneMore(db, after, kind, project, dedup, stamped)
      else SameContents(db, after)
    ensures WithAlert(db, kind, project, dedup, event).nextAlert == db.nextAlert + 1
  {
  }

  // ---------------------------------------------------------------------------
  // Users, and the job that follows errors
  // ---------------------------------------------------------------------------

  /** A user's change sets the status and who set it, and leaves the rest of the event alone. */
  lemma UserOutcome(db: Db, read: Snapshot, status: Status, userID: nat)
    requires Numbered(db) && Current(db, read) && read.event.time != 0 && read.event.createdAt != 0
    ensures NamesNow(db, Committed(db, read, Derived(read.event, UserChange(status, userID))), read.alert,
      Event(read.event.alert, userID, StatusChanged, status, read.event.time, read.event.createdAt, read.event.params))
  {
  }

  /** An error that is reported again: its event is open, whatever it was before, has the time of the
      span, and counts the spans. */
  lemma RepeatOutcome(db: Db, read: Snapshot, time: nat, params: Params)
    requires Numbered(db) && Current(db, read) && time != 0
    ensures NamesNow(db, Committed(db, read, Derived(read.event, Repeat(time, params))), read.alert,
      Event(read.event.alert, read.event.userID, Recurring, Open, time, time, params))
  {
  }

  /** An error that is only noted: the event that was read has the new time and parameters; nothing else
      changes. */
  lemma TouchOutcome(db: Db, read: Snapshot, time: nat, params: Params)
    ensures var after := Touched(db, read, time, params);
      && after.alerts == db.alerts && after.events.Keys == db.events.Keys
      && (forall e :: e in db.events && e != read.eventID ==> after.events[e] == db.events[e])
      && (read.eventID in db.events ==>
           var was, now := db.events[read.eventID], after.events[read.eventID];
           now == Event(was.alert, was.userID, was.name, was.status, time, time, params))
  {
  }

  // ---------------------------------------------------------------------------
  // The manager, without an open alert
  // ---------------------------------------------------------------------------

  /** Where the check of a series begins: at its first point, or at the last of the holes that it begins
      with. */
  predicate BeginsAt(values: seq<Float>, first: nat) {
    if values != [] && values[0].NaN? then
      first < |values| && (forall i :: 0 <= i <= first ==> values[i].NaN?) && (first + 1 < |values| ==> !values[first + 1].NaN?)
    else first == 0
  }

  lemma TrimmedIff(values: seq<Float>, first: nat)
    ensures BeginsAt(values, first) <==> first == TrimIndex(values)
  {
    var n := LeadingHoles(values);
    if n > 0 {
      assert values[n - 1].NaN?;
      if BeginsAt(values, first) {
        assert first + 1 >= n;
        assert first + 1 <= n;
      }
    }
  }

  /** There are `n` points from where the check begins, and the last `n` are all outside. */
  predicate Fires(values: seq<Float>, bounds: Bounds, n: nat, first: nat) {
    first <= |values| && n <= |values| - first && forall i :: |values| - n <= i < |values| ==> Outside(values[i], bounds)
  }

  function Seen(x: Float): Float {
    if x.NaN? then Num(0.0) else x
  }

  /** The parameters of a check that fires: on which side, and the first of the points. */
  predicate ParamsOfCheck(params: Params, values: seq<Float>, bounds: Bounds, n: nat)
    requires 0 < n <= |values|
  {
    var x := Seen(values[|values| - n]);
    && params.MetricParams? && params.initial == params.current == x && params.normal == Num(0.0) && params.numPointFiring == n
    && (params.firing == -1 <==> bounds.min.Valid? && FloatLess(x, Num(bounds.min.value)))
    && params.firing in {-1, 1}
  }

  lemma FiresIff(values: seq<Float>, bounds: Bounds, n: nat, first: nat)
    requires 0 < n && first == TrimIndex(values)
    ensures AllOut(values[first..], bounds, n) <==> Fires(values, bounds, n, first)
    ensures Fires(values, bounds, n, first) ==> ParamsOfCheck(Update(bounds, LastFilled(values[first..], n)), values, bounds, n)
  {
    var input := values[first..];
    if n <= |input| {
      AllOutIff(input, bounds, n);
      assert forall i :: |values| - n <= i < |values| ==> values[i] == input[i - first];
      assert forall i :: |input| - n <= i < |input| ==> input[i] == values[i + first];
      if Fires(values, bounds, n, first) {
        assert Outside(values[|values| - n], bounds);
        assert LastFilled(input, n)[0] == Seen(values[|values| - n]);
      }
    }
  }

  /** A new open metric alert at a time, with the parameters of the check, unless the index refuses it. */
  ghost predicate AlertAdded(before: Db, after: Db, project: nat, values: seq<Float>, n: nat, bounds: Bounds, at: nat)
    requires 0 < n <= |values|
  {
    if at != 0 && !(exists a :: a in before.alerts && before.alerts[a].project == project && before.alerts[a].dedup == 0) then
      exists params :: ParamsOfCheck(params, values, bounds, n)
        && OneMore(before, after, MetricKind, project, 0, Event(0, 0, Created, Open, at, at, params))
    else SameContents(before, after)
  }

  lemma AddedOutcome(db: Db, project: nat, values: seq<Float>, n: nat, bounds: Bounds, at: nat, params: Params)
    requires Numbered(db) && 0 < n <= |values| && ParamsOfCheck(params, values, bounds, n)
    ensures AlertAdded(db, WithAlert(db, MetricKind, project, 0, Event(0, 0, Created, Open, at, 0, params)), project, values, n, bounds, at)
  {
    CreateOutcome(db, MetricKind, project, 0, Event(0, 0, Created, Open, at, 0, params));
  }

  /** The alert is reopened at a time, with the parameters of the check, unless somebody else has changed
      it since it was read. */
  ghost predicate Reopened(before: Db, after: Db, read: Snapshot, values: seq<Float>, n: nat, bounds: Bounds, at: nat)
    requires 0 < n <= |values|
  {
    if Current(before, read) && at != 0 then
      exists params :: ParamsOfCheck(params, values, bounds, n)
        && NamesNow(before, after, read.alert, Event(read.event.alert, 0, StatusChanged, Open, at, at, params))
    else SameContents(before, after)
  }

  lemma ReopenOutcome(db: Db, read: Snapshot, values: seq<Float>, n: nat, bounds: Bounds, at: nat, params: Params)
    requires Numbered(db) && 0 < n <= |values| && ParamsOfCheck(params, values, bounds, n)
    ensures Reopened(db, Committed(db, read, Derived(read.event, Reopen(at, params))), read, values, n, bounds, at)
  {
    CommitOutcome(db, read, Derived(read.event, Reopen(at, params)));
  }

  lemma VerdictWhenFiring(read: Option<Event>, values: seq<Float>, times: seq<nat>, n: nat, bounds: Bounds, first: nat) returns (params: Params)
    requires 0 < n && |values| == |times| && BeginsAt(values, first) && Fires(values, bounds, n, first)
    ensures ParamsOfCheck(params, values, bounds, n)
    ensures var at := times[|times| - n];
      ClosedVerdict(read, values, times, n, bounds) ==
        if read.Some? && at - read.value.createdAt < 8 * HOUR then Act(Reopen(at, params))
        else NewAlert(Event(0, 0, Created, Open, at, 0, params))
  {
    TrimmedIff(values, first);
    FiresIff(values, bounds, n, first);
    params := Update(bounds, LastFilled(values[first..], n));
  }

  lemma VerdictWhenQuiet(read: Option<Event>, values: seq<Float>, times: seq<nat>, n: nat, bounds: Bounds, first: nat)
    requires 0 < n && |values| == |times| && BeginsAt(values, first) && !Fires(values, bounds, n, first)
    ensures ClosedVerdict(read, values, times, n, bounds) == Nothing
  {
    TrimmedIff(values, first);
    FiresIff(values, bounds, n, first);
  }

  /** A series with a closed alert. If it does not fire, nothing changes. If it fires from less than eight
      hours after the alert was closed on, the alert is reopened at the first of the points. If it fires
      later, a new alert is created, unless the index refuses it. */
  lemma ClosedOutcome(db: Db, project: nat, read: Snapshot, values: seq<Float>, times: seq<nat>, n: nat, bounds: Bounds, first: nat)
    requires Numbered(db) && 0 < n && |values| == |times| && read.event.status == Closed && BeginsAt(values, first)
    ensures var after := AfterCheck(db, project, Some(read), values, times, n, bounds);
      if !Fires(values, bounds, n, first) then after == db
      else
        var at := times[|times| - n];
        if at - read.event.createdAt < 8 * HOUR then Reopened(db, after, read, values, n, bounds, at)
        else AlertAdded(db, after, project, values, n, bounds, at)
  {
    if Fires(values, bounds, n, first) {
      var at := times[|times| - n];
      var params := VerdictWhenFiring(Some(read.event), values, times, n, bounds, first);
      ReopenOutcome(db, read, values, n, bounds, at, params);
      AddedOutcome(db, project, values, n, bounds, at, params);
    } else {
      VerdictWhenQuiet(Some(read.event), values, times, n, bounds, first);
    }
  }

  /** A series without an alert. */
  lemma NewSeriesOutcome(db: Db, project: nat, values: seq<Float>, times: seq<nat>, n: nat, bounds: Bounds, first: nat)
    requires Numbered(db) && 0 < n && |values| == |times| && BeginsAt(values, first)
    ensures var after := AfterCheck(db, project, None, values, times, n, bounds);
      if Fires(values, bounds, n, first) then AlertAdded(db, after, project, values, n, bounds, times[|times| - n])
      else after == db
  {
    if Fires(values, bounds, n, first) {
      var params := VerdictWhenFiring(None, values, times, n, bounds, first);
      AddedOutcome(db, project, values, n, bounds, times[|times| - n], params);
    } else {
      VerdictWhenQuiet(None, values, times, n, bounds, first);
    }
  }

  // ---------------------------------------------------------------------------
  // The manager, with an open alert
  // ---------------------------------------------------------------------------

  predicate AllLast(values: seq<Float>, bounds: Bounds, n: nat, outside: bool)
    requires n <= |values|
  {
    forall i :: |values| - n <= i < |values| ==> Outside(values[i], bounds) == outside
  }

  /** What becomes of an open alert: it is closed, at the time of the first of the last `n` points, if none
      of them is outside; if all are, and the last one comes an hour after the event or later, there is a
      reminder at the time of the last one; otherwise nothing happens. In both cases the event keeps its
      time, and nothing happens if somebody else has changed the alert. */
  lemma OpenOutcome(db: Db, project: nat, read: Snapshot, values: seq<Float>, times: seq<nat>, n: nat, bounds: Bounds)
    requires Numbered(db) && 0 < n <= |values| == |times|
    requires read.event.status == Open && read.event.params.MetricParams? && read.event.time != 0
    ensures var after := AfterCheck(db, project, Some(read), values, times, n, bounds);
      var event, from, to := read.event, times[|times| - n], times[|times| - 1];
      if AllLast(values, bounds, n, false) then
        if Current(db, read) then
          NamesNow(db, after, read.alert, Event(event.alert, 0, StatusChanged, Closed, event.time, if from == 0 then event.time else from,
                                                event.params.(normal := Seen(values[|values| - n]))))
        else SameContents(db, after)
      else if AllLast(values, bounds, n, true) && to - event.createdAt >= HOUR then
        if Current(db, read) then
          NamesNow(db, after, read.alert, Event(event.alert, event.userID, Recurring, Open, event.time, to,
                                                event.params.(current := Seen(values[|values| - 1]))))
        else SameContents(db, after)
      else after == db
  {
    AllOutIff(values, bounds, n);
    var decision := OpenDecision(read.event, values, times, n, bounds);
    if decision.Some? { CommitOutcome(db, read, Derived(read.event, decision.value)); }
  }

  // ---------------------------------------------------------------------------
  // One tick of a life
  // ---------------------------------------------------------------------------

  /** What a tick makes of a life. */
  predicate TickedTo(life: Life, after: Life, opens: bool, closes: bool) {
    && after.tick == life.tick + 1
    && after.journal == life.journal + (if opens || closes then [Auto(life.tick, opens)] else [])
    && IsOpen(after.alert) == (opens || (IsOpen(life.alert) && !closes))
    && (closes ==> after.alert.Some?)
  }

  predicate IsOpen(alert: Option<Event>) {
    alert.Some? && alert.value.status == Open
  }

  lemma OpenTick(life: Life, monitor: Monitor, stream: seq<Float>)
    requires monitor.checkNumPoint > 0 && life.tick < |stream| && IsOpen(life.alert) && life.alert.value.params.MetricParams?
    ensures var window, n := Window(stream, life.tick, monitor.width), monitor.checkNumPoint;
      TickedTo(life, Turned(life, Tick(true), monitor, stream), false, n <= |window| && AllLast(window, monitor.bounds, n, false))
  {
    var window, n := Window(stream, life.tick, monitor.width), monitor.checkNumPoint;
    var times, later := Times(life.tick + 1 - |window|, life.tick), life.(tick := life.tick + 1);
    assert life.journal + [] == life.journal;
    if n <= |window| {
      AllOutIff(window, monitor.bounds, n);
      var decision := OpenDecision(life.alert.value, window, times, n, monitor.bounds);
      assert Turned(life, Tick(true), monitor, stream) == WithDecision(later, life.tick, decision);
      assert decision.Some? && decision.value.Close? <==> AllLast(window, monitor.bounds, n, false);
    }
  }

  lemma {:induction false} ClosedTurn(life: Life, monitor: Monitor, stream: seq<Float>, window: seq<Float>, times: seq<nat>)
    requires monitor.checkNumPoint > 0 && life.tick < |stream| && !IsOpen(life.alert)
    requires life.alert.Some? ==> life.alert.value.params.MetricParams?
    requires window == Window(stream, life.tick, monitor.width) && times == Times(life.tick + 1 - |window|, life.tick)
    ensures Turned(life, Tick(true), monitor, stream) == WithVerdict(life.(tick := life.tick + 1), life.tick,
      ClosedVerdict(life.alert, window, times, monitor.checkNumPoint, monitor.bounds))
  {
  }

  lemma ClosedTick(life: Life, monitor: Monitor, stream: seq<Float>, first: nat)
    requires monitor.checkNumPoint > 0 && life.tick < |stream| && !IsOpen(life.alert)
    requires life.alert.Some? ==> life.alert.value.params.MetricParams?
    requires BeginsAt(Window(stream, life.tick, monitor.width), first)
    ensures var window := Window(stream, life.tick, monitor.width);
      TickedTo(life, Turned(life, Tick(true), monitor, stream), Fires(window, monitor.bounds, monitor.checkNumPoint, first), false)
  {
    var window, n := Window(stream, life.tick, monitor.width), monitor.checkNumPoint;
    var times := Times(life.tick + 1 - |window|, life.tick);
    ClosedTurn(life, monitor, stream, window, times);
    VerdictTicks(life, window, times, n, monitor.bounds, first);
  }

  lemma VerdictTicks(life: Life, values: seq<Float>, times: seq<nat>, n: nat, bounds: Bounds, first: nat)
    requires 0 < n && |values| == |times| && BeginsAt(values, first) && !IsOpen(life.alert)
    ensures TickedTo(life, WithVerdict(life.(tick := life.tick + 1), life.tick, ClosedVerdict(life.alert, values, times, n, bounds)),
                     Fires(values, bounds, n, first), false)
  {
    VerdictOpens(life.alert, values, times, n, bounds, first);
    WithVerdictTicks(life, ClosedVerdict(life.alert, values, times, n, bounds));
  }

  lemma VerdictOpens(read: Option<Event>, values: seq<Float>, times: seq<nat>, n: nat, bounds: Bounds, first: nat)
    requires 0 < n && |values| == |times| && BeginsAt(values, first)
    ensures var verdict := ClosedVerdict(read, values, times, n, bounds);
      && (verdict.Nothing? <==> !Fires(values, bounds, n, first))
      && (verdict.Act? ==> read.Some? && Derived(read.value, verdict.action).status == Open)
      && (verdict.NewAlert? ==> verdict.event.status == Open)
  {
    if Fires(values, bounds, n, first) {
      var params := VerdictWhenFiring(read, values, times, n, bounds, first);
    } else {
      VerdictWhenQuiet(read, values, times, n, bounds, first);
    }
  }

  lemma WithVerdictTicks(life: Life, verdict: Verdict)
    requires !IsOpen(life.alert)
    requires verdict.Act? ==> life.alert.Some? && Derived(life.alert.value, verdict.action).status == Open
    requires verdict.NewAlert? ==> verdict.event.status == Open
    ensures TickedTo(life, WithVerdict(life.(tick := life.tick + 1), life.tick, verdict), !verdict.Nothing?, false)
  {
    assert life.journal + [] == life.journal;
  }

  /** At a tick the manager opens the alert if and only if it is not open and the series fires, and closes
      it if and only if it is open and none of the last points is outside, provided that its transaction
      gets through. Nothing else is entered into the journal. */
  lemma TickOutcome(life: Life, commits: bool, monitor: Monitor, stream: seq<Float>, first: nat)
    requires monitor.checkNumPoint > 0 && Sound(life, monitor, stream) && life.tick < |stream|
    requires BeginsAt(Window(stream, life.tick, monitor.width), first)
    ensures var window, n := Window(stream, life.tick, monitor.width), monitor.checkNumPoint;
      TickedTo(life, Turned(life, Tick(commits), monitor, stream),
               commits && !IsOpen(life.alert) && Fires(window, monitor.bounds, n, first),
               commits && IsOpen(life.alert) && n <= |window| && AllLast(window, monitor.bounds, n, false))
  {
    if !commits {
      assert life.journal + [] == life.journal;
    } else if IsOpen(life.alert) {
      OpenTick(life, monitor, stream);
    } else {
      ClosedTick(life, monitor, stream, first);
    }
  }
}
