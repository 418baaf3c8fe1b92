/** The sweep that computes how long a span was busy itself: its duration minus the time
    covered by its children. Times and durations are integer nanoseconds. */
module SelfTime {
  import opened Basics

  /** A span as the sweep sees it. The duration may be negative if the clocks were skewed. */
  datatype Interval = Interval(time: int, duration: int) {
    function End(): int {
      time + duration
    }

    predicate Contains(t: int) {
      time <= t < End()
    }
  }

  function Max(a: int, b: int): int {
    if b < a then a else b
  }

  function Min(a: int, b: int): int {
    if b < a then b else a
  }

  /** One child of the sweep: the new value of DurationSelf. */
  function Reduced(self: int, span: Interval, child: Interval, prevEnd: int): int {
    if child.time > span.End() then self
    else
      var start, end := Max(child.time, prevEnd), Min(child.End(), span.End());
      if end > start then
        var dur := end - start;
        if dur < self then self - dur else 0
      else self
  }

  /** Where the next child may start to count. */
  function NextEnd(prevEnd: int, child: Interval): int {
    if child.End() > prevEnd then child.End() else prevEnd
  }

  function EndAfter(start: int, kids: seq<Interval>): int {
    if kids == [] then start else NextEnd(EndAfter(start, kids[..|kids| - 1]), kids[|kids| - 1])
  }

  /** DurationSelf after the children `kids`, in this order. */
  function Sweep(span: Interval, kids: seq<Interval>): int {
    if kids == [] then span.duration
    else
      var before := kids[..|kids| - 1];
      Reduced(Sweep(span, before), span, kids[|kids| - 1], EndAfter(span.time, before))
  }

  // ---------------------------------------------------------------------------
  // Reference: sets of instants
  // ---------------------------------------------------------------------------

  /** The instants of the span at which some child runs. */
  ghost function Covered(span: Interval, kids: seq<Interval>): set<int> {
    set t | span.time <= t < span.End() && Runs(kids, t)
  }

  /** Some child runs at `t`. */
  predicate Runs(kids: seq<Interval>, t: int) {
    exists i :: 0 <= i < |kids| && kids[i].Contains(t)
  }

  /** The child `i` runs at `t` and every earlier child has ended. */
  predicate Counts(kids: seq<Interval>, i: int, t: int) {
    0 <= i < |kids| && kids[i].Contains(t) && forall j :: 0 <= j < i ==> kids[j].End() <= t
  }

  /** The instants that the sweep takes off. */
  ghost function Swept(span: Interval, kids: seq<Interval>): set<int> {
    set t | span.time <= t < span.End() && SomeCounts(kids, t)
  }

  predicate SomeCounts(kids: seq<Interval>, t: int) {
    exists i | 0 <= i < |kids| :: Counts(kids, i, t)
  }

  ghost function Range(from: int, to: int): set<int> {
    set t | from <= t < to && Within(from, to, t)
  }

  predicate Within(from: int, to: int, t: int) {
    from <= t < to
  }

  lemma {:induction false} RangeSize(from: int, to: int)
    ensures |Range(from, to)| == (if to > from then to - from else 0)
    decreases (to - from)
  {
    if to > from {
      RangeSize(from, to - 1);
      assert Range(from, to) == Range(from, to - 1) + {to - 1};
    } else {
      assert Range(from, to) == {};
    }
  }

  lemma {:induction false} EndAfterIsMax(start: int, kids: seq<Interval>)
    ensures EndAfter(start, kids) >= start
    ensures forall i :: 0 <= i < |kids| ==> kids[i].End() <= EndAfter(start, kids)
    ensures EndAfter(start, kids) == start || exists i :: 0 <= i < |kids| && kids[i].End() == EndAfter(start, kids)
  {
    if kids != [] {
      var before := kids[..|kids| - 1];
      EndAfterIsMax(start, before);
      if EndAfter(start, kids) != start && EndAfter(start, kids) != kids[|kids| - 1].End() {
        var i :| 0 <= i < |before| && before[i].End() == EndAfter(start, before);
        assert kids[i].End() == EndAfter(start, kids);
      }
    }
  }

  /** The part that one more child adds to the swept instants. */
  ghost function Piece(span: Interval, before: seq<Interval>, child: Interval): set<int> {
    Range(Max(child.time, EndAfter(span.time, before)), Min(child.End(), span.End()))
  }

  lemma SweptStep(span: Interval, before: seq<Interval>, child: Interval)
    ensures Swept(span, before + [child]) == Swept(span, before) + Piece(span, before, child)
    ensures Swept(span, before) !! Piece(span, before, child)
  {
    var kids, from := before + [child], EndAfter(span.time, before);
    EndAfterIsMax(span.time, before);
    forall t {:trigger SomeCounts(kids, t)} ensures SomeCounts(kids, t) <==> SomeCounts(before, t) || (child.Contains(t) && EndedBy(before, t)) {
      CountsStep(before, child, t);
    }
    forall t ensures EndedBy(before, t) && t >= span.time <==> t >= from {
      if t >= span.time && EndedBy(before, t) && from != span.time {
        var j :| 0 <= j < |before| && before[j].End() == from;
      }
    }
    forall t | t in Swept(span, before) ensures t !in Piece(span, before, child) {
      var i :| 0 <= i < |before| && Counts(before, i, t);
      assert t < before[i].End() <= from;
    }
  }

  predicate EndedBy(kids: seq<Interval>, t: int) {
    forall j :: 0 <= j < |kids| ==> kids[j].End() <= t
  }

  lemma CountsStep(before: seq<Interval>, child: Interval, t: int)
    ensures SomeCounts(before + [child], t) <==> SomeCounts(before, t) || (child.Contains(t) && EndedBy(before, t))
  {
    var kids := before + [child];
    forall i | 0 <= i < |before| ensures Counts(kids, i, t) == Counts(before, i, t) {
      assert forall j :: 0 <= j <= i ==> kids[j] == before[j];
    }
    assert Counts(kids, |before|, t) == (child.Contains(t) && EndedBy(before, t)) by {
      assert forall j :: 0 <= j < |before| ==> kids[j] == before[j];
    }
  }

  /** The sweep takes off exactly the swept instants, for children in any order. */
  lemma {:induction false} SweepCountsSwept(span: Interval, kids: seq<Interval>)
    ensures Sweep(span, kids) == span.duration - |Swept(span, kids)|
    ensures span.duration >= 0 ==> |Swept(span, kids)| <= span.duration
  {
    SweptInSpan(span, kids);
    if kids == [] {
      assert Swept(span, kids) == {};
    } else {
      var before, child := kids[..|kids| - 1], kids[|kids| - 1];
      assert kids == before + [child];
      SweepCountsSwept(span, before);
      SweptStep(span, before, child);
      EndAfterIsMax(span.time, before);
      RangeSize(Max(child.time, EndAfter(span.time, before)), Min(child.End(), span.End()));
    }
  }

  lemma SweptInSpan(span: Interval, kids: seq<Interval>)
    ensures |Swept(span, kids)| <= if span.duration > 0 then span.duration else 0
  {
    RangeSize(span.time, span.End());
    SubsetSize(Swept(span, kids), Range(span.time, span.End()));
  }

  /** For children in any order, the self time lies between the duration minus the covered
      time and the duration. It is the former exactly when at each covered instant some
      child runs that is not preceded by a child still running later. */
  lemma {:induction false} SelfTimeBounds(span: Interval, kids: seq<Interval>)
    ensures span.duration - |Covered(span, kids)| <= Sweep(span, kids) <= span.duration
    ensures Sweep(span, kids) == span.duration - |Covered(span, kids)|
       <==> forall t :: t in Covered(span, kids) ==> SomeCounts(kids, t)
  {
    SweepCountsSwept(span, kids);
    SubsetSize(Swept(span, kids), Covered(span, kids));
    if forall t :: t in Covered(span, kids) ==> SomeCounts(kids, t) {
      assert Swept(span, kids) == Covered(span, kids);
    }
  }

  predicate SortedByTime(kids: seq<Interval>) {
    forall i, j :: 0 <= i < j < |kids| ==> kids[i].time <= kids[j].time
  }

  /** For children sorted by start time the self time is exact: the duration minus the size
      of the union of the children, clipped to the span. */
  lemma {:induction false} SelfTimeExact(span: Interval, kids: seq<Interval>)
    requires SortedByTime(kids)
    ensures Sweep(span, kids) == span.duration - |Covered(span, kids)|
  {
    forall t | t in Covered(span, kids) ensures SomeCounts(kids, t) {
      var i :| 0 <= i < |kids| && kids[i].Contains(t);
      while exists j :: 0 <= j < i && kids[j].Contains(t)
        invariant 0 <= i < |kids| && kids[i].Contains(t)
        decreases i
      {
        var j :| 0 <= j < i && kids[j].Contains(t);
        i := j;
      }
      assert Counts(kids, i, t);
    }
    SelfTimeBounds(span, kids);
  }
}
