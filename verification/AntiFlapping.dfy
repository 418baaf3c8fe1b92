/** The alert of one metric series over time: the manager looks at the series once a minute,
    users open and close the alert at will. The series grows by a point a minute and its points
    do not change. */
module AntiFlapping {
  import opened Basics
  import opened MetricCheck
  import opened AlertProtocol
  import opened AlertWriters

  /** The points that the manager sees at a tick: the last `width` of those up to the tick. */
  function Window(stream: seq<Float>, tick: nat, width: nat): (window: seq<Float>)
    requires tick < |stream|
    ensures |window| == if tick + 1 < width then tick + 1 else width
  {
    stream[if tick + 1 < width then 0 else tick + 1 - width..tick + 1]
  }

  /** The times of the points `from`, and so on up to the tick. */
  function Times(from: nat, tick: nat): (times: seq<nat>)
    requires from <= tick + 1
    ensures |times| == tick + 1 - from && forall k :: 0 <= k < |times| ==> times[k] == (from + k + 1) * MINUTE
    decreases tick + 1 - from
  {
    if from == tick + 1 then [] else [(from + 1) * MINUTE] + Times(from + 1, tick)
  }

  /** The monitor: its bounds, the number of points that it checks, and of those that it sees. */
  datatype Monitor = Monitor(bounds: Bounds, checkNumPoint: nat, width: nat)

  /** What the manager did by itself. */
  datatype Auto = Auto(tick: nat, opens: bool)

  /** The newest alert of the series, the tick to come, and what the manager has done. */
  datatype Life = Life(alert: Option<Event>, tick: nat, journal: seq<Auto>)

  datatype Turn =
    | Tick(commits: bool)  // whether the manager's transaction gets through
    | UserSets(status: Status, userID: nat)

  /** What the manager decides about an alert that is not open. */
  function VerdictAt(life: Life, monitor: Monitor, stream: seq<Float>): Verdict
    requires monitor.checkNumPoint > 0 && life.tick < |stream|
  {
    var window := Window(stream, life.tick, monitor.width);
    ClosedVerdict(life.alert, window, Times(life.tick + 1 - |window|, life.tick), monitor.checkNumPoint, monitor.bounds)
  }

  function Turned(life: Life, turn: Turn, monitor: Monitor, stream: seq<Float>): Life
    requires monitor.checkNumPoint > 0 && (life.alert.Some? ==> life.alert.value.params.MetricParams?)
  {
    match turn
    case UserSets(status, userID) =>
      if life.alert.Some? && life.alert.value.status != status then
        life.(alert := Some(Stamped(Derived(life.alert.value, UserChange(status, userID)))))
      else life
    case Tick(commits) =>
      if life.tick >= |stream| then life
      else
        var window := Window(stream, life.tick, monitor.width);
        var times := Times(life.tick + 1 - |window|, life.tick);
        var later := life.(tick := life.tick + 1);
        if !commits then later
        else if life.alert.Some? && life.alert.value.status == Open then
          if |window| < monitor.checkNumPoint then later
          else WithDecision(later, life.tick, OpenDecision(life.alert.value, window, times, monitor.checkNumPoint, monitor.bounds))
        else
          WithVerdict(later, life.tick, VerdictAt(life, monitor, stream))
  }

  function WithDecision(life: Life, tick: nat, decision: Option<Action>): Life
    requires life.alert.Some?
  {
    if decision.None? then life
    else
      life.(alert := Some(Stamped(Derived(life.alert.value, decision.value))),
            journal := if decision.value.Close? then life.journal + [Auto(tick, false)] else life.journal)
  }

  function WithVerdict(life: Life, tick: nat, verdict: Verdict): Life
  {
    match verdict
    case Nothing => life
    case Act(action) =>
      if life.alert.None? then life
      else life.(alert := Some(Stamped(Derived(life.alert.value, action))), journal := life.journal + [Auto(tick, true)])
    case NewAlert(event) => life.(alert := Some(Stamped(event)), journal := life.journal + [Auto(tick, true)])
  }

  /** What the manager has done was called for by the points it saw. */
  predicate Justified(auto: Auto, monitor: Monitor, stream: seq<Float>) {
    auto.tick < |stream| &&
    var window := Window(stream, auto.tick, monitor.width);
    if auto.opens then AllOut(window, monitor.bounds, monitor.checkNumPoint)
    else NoneOut(window, monitor.bounds, monitor.checkNumPoint)
  }

  predicate Sound(life: Life, monitor: Monitor, stream: seq<Float>) {
    && (life.alert.Some? ==> life.alert.value.params.MetricParams?)
    && (forall i :: 0 <= i < |life.journal| ==>
         Justified(life.journal[i], monitor, stream) && life.journal[i].tick < life.tick)
    && (forall i, j :: 0 <= i < j < |life.journal| ==> life.journal[i].tick < life.journal[j].tick)
  }

  lemma DecisionKeepsSound(life: Life, decision: Option<Action>, monitor: Monitor, stream: seq<Float>, tick: nat)
    requires Sound(life, monitor, stream) && life.alert.Some? && tick < life.tick && tick < |stream|
    requires forall i :: 0 <= i < |life.journal| ==> life.journal[i].tick < tick
    requires decision.Some? ==> Derived(life.alert.value, decision.value).params.MetricParams?
    requires decision.Some? && decision.value.Close? ==> Justified(Auto(tick, false), monitor, stream)
    ensures Sound(WithDecision(life, tick, decision), monitor, stream)
  {
  }

  lemma VerdictKeepsSound(life: Life, verdict: Verdict, monitor: Monitor, stream: seq<Float>, tick: nat)
    requires Sound(life, monitor, stream) && tick < life.tick && tick < |stream|
    requires forall i :: 0 <= i < |life.journal| ==> life.journal[i].tick < tick
    requires verdict.Act? && life.alert.Some? ==> Derived(life.alert.value, verdict.action).params.MetricParams?
    requires verdict.NewAlert? ==> verdict.event.params.MetricParams?
    requires !verdict.Nothing? ==> Justified(Auto(tick, true), monitor, stream)
    ensures Sound(WithVerdict(life, tick, verdict), monitor, stream)
  {
  }

  lemma LaterIsSound(life: Life, monitor: Monitor, stream: seq<Float>)
    requires Sound(life, monitor, stream)
    ensures Sound(life.(tick := life.tick + 1), monitor, stream)
  {
  }

  lemma OpenTickKeepsSound(life: Life, monitor: Monitor, stream: seq<Float>)
    requires monitor.checkNumPoint > 0 && Sound(life, monitor, stream) && life.tick < |stream|
    requires life.alert.Some? && life.alert.value.status == Open
    ensures Sound(Turned(life, Tick(true), monitor, stream), monitor, stream)
  {
    LaterIsSound(life, monitor, stream);
    var n, window := monitor.checkNumPoint, Window(stream, life.tick, monitor.width);
    if |window| >= n {
      var times := Times(life.tick + 1 - |window|, life.tick);
      var decision := OpenDecision(life.alert.value, window, times, n, monitor.bounds);
      assert decision.Some? && decision.value.Close? ==> Justified(Auto(life.tick, false), monitor, stream);
      DecisionKeepsSound(life.(tick := life.tick + 1), decision, monitor, stream, life.tick);
      assert Turned(life, Tick(true), monitor, stream) == WithDecision(life.(tick := life.tick + 1), life.tick, decision);
    }
  }

  lemma VerdictNeedsOutliers(read: Option<Event>, window: seq<Float>, times: seq<nat>, n: nat, bounds: Bounds)
    requires n > 0 && |window| == |times|
    ensures var verdict := ClosedVerdict(read, window, times, n, bounds);
      && (!verdict.Nothing? ==> AllOut(window, bounds, n))
      && (verdict.NewAlert? ==> verdict.event.params.MetricParams?)
      && (verdict.Act? && read.Some? ==> Derived(read.value, verdict.action).params.MetricParams?)
  {
    if AllOut(window[TrimIndex(window)..], bounds, n) {
      TrimmingKeepsOutliers(window, bounds, n);
    }
  }

  lemma VerdictAtIsJustified(life: Life, monitor: Monitor, stream: seq<Float>)
    requires monitor.checkNumPoint > 0 && life.tick < |stream|
    ensures var verdict := VerdictAt(life, monitor, stream);
      && (!verdict.Nothing? ==> Justified(Auto(life.tick, true), monitor, stream))
      && (verdict.NewAlert? ==> verdict.event.params.MetricParams?)
      && (verdict.Act? && life.alert.Some? ==> Derived(life.alert.value, verdict.action).params.MetricParams?)
  {
    var window := Window(stream, life.tick, monitor.width);
    VerdictNeedsOutliers(life.alert, window, Times(life.tick + 1 - |window|, life.tick), monitor.checkNumPoint, monitor.bounds);
  }

  lemma ClosedTickKeepsSound(life: Life, monitor: Monitor, stream: seq<Float>)
    requires monitor.checkNumPoint > 0 && Sound(life, monitor, stream) && life.tick < |stream|
    requires life.alert.Some? ==> life.alert.value.status == Closed
    ensures Sound(WithVerdict(life.(tick := life.tick + 1), life.tick, VerdictAt(life, monitor, stream)), monitor, stream)
  {
    LaterIsSound(life, monitor, stream);
    VerdictAtIsJustified(life, monitor, stream);
    VerdictKeepsSound(life.(tick := life.tick + 1), VerdictAt(life, monitor, stream), monitor, stream, life.tick);
  }

  lemma TurnKeepsSound(life: Life, turn: Turn, monitor: Monitor, stream: seq<Float>)
    requires monitor.checkNumPoint > 0 && Sound(life, monitor, stream)
    ensures Sound(Turned(life, turn, monitor, stream), monitor, stream)
  {
    if turn.Tick? && life.tick < |stream| {
      LaterIsSound(life, monitor, stream);
      if life.alert.Some? && life.alert.value.status == Open {
        OpenTickKeepsSound(life, monitor, stream);
      } else {
        ClosedTickKeepsSound(life, monitor, stream);
      }
    }
  }

  /** The life of the alert after the turns. */
  function Run(turns: seq<Turn>, monitor: Monitor, stream: seq<Float>): (life: Life)
    requires monitor.checkNumPoint > 0
    ensures Sound(life, monitor, stream)
  {
    if turns == [] then Life(None, 0, [])
    else
      var before := Run(turns[..|turns| - 1], monitor, stream);
      TurnKeepsSound(before, turns[|turns| - 1], monitor, stream);
      Turned(before, turns[|turns| - 1], monitor, stream)
  }

  /** Two windows of which one is all out and the other all in have ends far apart. */
  lemma WindowsApart(stream: seq<Float>, monitor: Monitor, out: nat, calm: nat)
    requires monitor.checkNumPoint > 0 && out < |stream| && calm < |stream|
    requires AllOut(Window(stream, out, monitor.width), monitor.bounds, monitor.checkNumPoint)
    requires NoneOut(Window(stream, calm, monitor.width), monitor.bounds, monitor.checkNumPoint)
    ensures out + monitor.checkNumPoint <= calm || calm + monitor.checkNumPoint <= out
  {
    if out <= calm < out + monitor.checkNumPoint {
      PointIsOut(stream, monitor, out, out);
      PointIsCalm(stream, monitor, calm, out);
    } else if calm <= out < calm + monitor.checkNumPoint {
      PointIsOut(stream, monitor, out, calm);
      PointIsCalm(stream, monitor, calm, calm);
    }
  }

  lemma PointIsOut(stream: seq<Float>, monitor: Monitor, tick: nat, t: nat)
    requires tick < |stream| && t <= tick < t + monitor.checkNumPoint
    requires AllOut(Window(stream, tick, monitor.width), monitor.bounds, monitor.checkNumPoint)
    ensures !monitor.bounds.Inside(Filled(stream[t]))
  {
    var w := Window(stream, tick, monitor.width);
    assert w[|w| - 1 - (tick - t)] == stream[t];
  }

  lemma PointIsCalm(stream: seq<Float>, monitor: Monitor, tick: nat, t: nat)
    requires tick < |stream| && t <= tick < t + monitor.checkNumPoint
    requires NoneOut(Window(stream, tick, monitor.width), monitor.bounds, monitor.checkNumPoint)
    ensures monitor.bounds.Inside(Filled(stream[t]))
  {
    var w := Window(stream, tick, monitor.width);
    assert w[|w| - 1 - (tick - t)] == stream[t];
  }

  /** Whatever the users do in between, and whichever transactions fail: when the manager opens
      the alert and closes it, or closes it and opens it again, at least as many ticks lie
      between as there are points to check. */
  lemma {:induction false} OpeningAndClosingApart(turns: seq<Turn>, monitor: Monitor, stream: seq<Float>, i: nat, j: nat)
    requires monitor.checkNumPoint > 0
    requires i < j < |Run(turns, monitor, stream).journal|
    requires Run(turns, monitor, stream).journal[i].opens != Run(turns, monitor, stream).journal[j].opens
    ensures Run(turns, monitor, stream).journal[j].tick
         >= Run(turns, monitor, stream).journal[i].tick + monitor.checkNumPoint
  {
    var journal := Run(turns, monitor, stream).journal;
    var out, calm := if journal[i].opens then i else j, if journal[i].opens then j else i;
    WindowsApart(stream, monitor, journal[out].tick, journal[calm].tick);
  }
}
