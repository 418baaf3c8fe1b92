/** Turning the points of cumulative counters into deltas, through a cache that keeps the last
    point of each counter. Floating-point numbers are reals here; integers have 64 bits. */
module CounterConversion {
  import opened Basics

  /** Project, metric, hash of the attributes and start time, taken as one. */
  type Key = nat

  /** A number point has an integer or a double; the other one is zero. */
  datatype Point = Point(int64: int, double: real)

  datatype Stored = Stored(point: Point, time: int)

  const TWO_63: int := 0x8000_0000_0000_0000

  /** Subtraction of 64-bit integers wraps around. */
  function Sub64(a: int, b: int): (r: int)
    ensures -TWO_63 <= r < TWO_63
    ensures -TWO_63 <= a - b < TWO_63 ==> r == a - b
  {
    (a - b + TWO_63) % (2 * TWO_63) - TWO_63
  }

  /** What a point adds to the sum of its datapoint, when it follows another one. */
  function Delta(point: Point, prior: Point): real {
    if Sub64(point.int64, prior.int64) > 0 then Sub64(point.int64, prior.int64) as real
    else if point.double - prior.double > 0.0 then point.double - prior.double
    else 0.0
  }

  /** For two points of a counter of one kind: by how much the value has grown, or nothing if it has not. */
  lemma {:induction false} DeltaIsGrowth(point: Point, prior: Point, ints: bool)
    requires OneKind(point, ints) && OneKind(prior, ints)
    ensures Delta(point, prior) == if Value(point) > Value(prior) then Value(point) - Value(prior) else 0.0
  {
  }

  // ---------------------------------------------------------------------------
  // The cache
  // ---------------------------------------------------------------------------

  /** A point replaces the stored one unless it is older. */
  function Swapped(cache: map<Key, Stored>, key: Key, point: Point, time: int): map<Key, Stored> {
    if key in cache && time < cache[key].time then cache else cache[key := Stored(point, time)]
  }

  /** The point that it replaces, if any. */
  function Replaced(cache: map<Key, Stored>, key: Key, time: int): Option<Point> {
    if key in cache && time >= cache[key].time then Some(cache[key].point) else None
  }

  class CumToDeltaConv {
    var cache: map<Key, Stored>

    constructor ()
      ensures cache == map[]
    {
      cache := map[];
    }

    method SwapPoint(key: Key, point: Point, time: int) returns (prior: Option<Point>)
      modifies this
      ensures cache == Swapped(old(cache), key, point, time)
      ensures prior == Replaced(old(cache), key, time)
      ensures key in old(cache) && time < old(cache)[key].time ==> prior == None && cache == old(cache)
      ensures key in old(cache) && time >= old(cache)[key].time ==> prior == Some(old(cache)[key].point)
      ensures !(key in old(cache) && time < old(cache)[key].time) ==>
        && key in cache && cache[key] == Stored(point, time) && cache.Keys == old(cache).Keys + {key}
        && forall k :: k in old(cache) && k != key ==> cache[k] == old(cache)[k]
      ensures key !in old(cache) ==> prior == None
    {
      if key in cache {
        var value := cache[key];
        if time < value.time { return None; }
        prior := Some(value.point);
        cache := cache[key := Stored(point, time)];
        return;
      }
      cache := cache[key := Stored(point, time)];
      prior := None;
    }

    /** What the library's cache does when it is full: some values are gone. */
    method Evict(keys: set<Key>)
      modifies this
      ensures cache == old(cache) - keys
    {
      cache := cache - keys;
    }
  }

  // ---------------------------------------------------------------------------
  // Batches
  // ---------------------------------------------------------------------------

  /** A datapoint of a batch; the one of a gauge has no cumulative point. */
  class Datapoint {
    const key: Key
    var time: int
    var cumPoint: Option<Point>
    var sum: real

    constructor (key: Key, time: int, cumPoint: Option<Point>, sum: real)
      ensures this.key == key && this.time == time && this.cumPoint == cumPoint && this.sum == sum
    {
      this.key, this.time, this.cumPoint, this.sum := key, time, cumPoint, sum;
    }
  }

  /** A point as it arrives. */
  datatype Arrival = Arrival(key: Key, point: Option<Point>, time: int)

  function Arrived(cache: map<Key, Stored>, a: Arrival): map<Key, Stored> {
    if a.point.None? then cache else Swapped(cache, a.key, a.point.value, a.time)
  }

  /** Whether the datapoint is kept. */
  predicate Keeps(cache: map<Key, Stored>, a: Arrival) {
    a.point.Some? ==> Replaced(cache, a.key, a.time).Some?
  }

  /** The sum that is emitted for a point that is kept. */
  function Emitted(cache: map<Key, Stored>, a: Arrival): real {
    if a.point.Some? && Replaced(cache, a.key, a.time).Some? then
      Delta(a.point.value, Replaced(cache, a.key, a.time).value)
    else 0.0
  }

  /** The cache after all arrivals, in this order. */
  function After(cache: map<Key, Stored>, arrivals: seq<Arrival>): map<Key, Stored> {
    if arrivals == [] then cache
    else Arrived(After(cache, arrivals[..|arrivals| - 1]), arrivals[|arrivals| - 1])
  }

  /** What the first arrivals emit for the counter. */
  function EmittedSum(cache: map<Key, Stored>, arrivals: seq<Arrival>, n: nat, key: Key): real
    requires n <= |arrivals|
  {
    if n == 0 then 0.0
    else
      EmittedSum(cache, arrivals, n - 1, key)
      + if arrivals[n - 1].key == key then Emitted(After(cache, arrivals[..n - 1]), arrivals[n - 1]) else 0.0
  }

  predicate KeepsAt(cache: map<Key, Stored>, arrivals: seq<Arrival>, i: nat)
    requires i < |arrivals|
  {
    Keeps(After(cache, arrivals[..i]), arrivals[i])
  }

  /** The fields of a datapoint that the conversion may change. */
  datatype Shape = Shape(time: int, cumPoint: Option<Point>, sum: real) {
    function Arriving(key: Key): Arrival {
      Arrival(key, cumPoint, time)
    }

    /** What becomes of a datapoint: if it is kept, its point is gone and its sum is what the
        point has added, if that is positive. */
    function Converted(key: Key, cache: map<Key, Stored>): Shape {
      if Keeps(cache, Arriving(key)) then
        var emitted := Emitted(cache, Arriving(key));
        Shape(Truncated(time), None, if emitted > 0.0 then emitted else sum)
      else this
    }
  }

  ghost predicate Hold(batch: seq<Datapoint>, shapes: seq<Shape>)
    reads batch
  {
    && |shapes| == |batch|
    && forall i :: 0 <= i < |batch| ==> shapes[i] == Shape(batch[i].time, batch[i].cumPoint, batch[i].sum)
  }

  /** The arrivals are the points of the batch in the order in which it is walked: backwards. */
  predicate WalksAs(batch: seq<Datapoint>, shapes: seq<Shape>, arrivals: seq<Arrival>) {
    |arrivals| == |batch| == |shapes| && forall k: nat :: k < |batch| ==> WalksAt(batch, shapes, arrivals, k)
  }

  predicate WalksAt(batch: seq<Datapoint>, shapes: seq<Shape>, arrivals: seq<Arrival>, k: nat)
    requires k < |batch| == |shapes| == |arrivals|
  {
    arrivals[|batch| - 1 - k] == shapes[k].Arriving(batch[k].key)
  }

  /** The datapoints from this position on that are kept, in their order. */
  function Kept(batch: seq<Datapoint>, cache: map<Key, Stored>, arrivals: seq<Arrival>, from: nat): (kept: seq<Datapoint>)
    requires from <= |batch| == |arrivals|
    decreases |batch| - from
  {
    if from == |batch| then []
    else if KeepsAt(cache, arrivals, |batch| - 1 - from) then [batch[from]] + Kept(batch, cache, arrivals, from + 1)
    else Kept(batch, cache, arrivals, from + 1)
  }

  /** The shapes of which those from this position on have been converted. */
  predicate ConvertedFrom(batch: seq<Datapoint>, cache: map<Key, Stored>, arrivals: seq<Arrival>,
                          start: seq<Shape>, now: seq<Shape>, from: nat)
    requires |batch| == |arrivals| == |start| == |now|
  {
    forall k: nat :: k < |batch| ==> ConvertedAt(batch, cache, arrivals, start, now, from, k)
  }

  predicate ConvertedAt(batch: seq<Datapoint>, cache: map<Key, Stored>, arrivals: seq<Arrival>,
                        start: seq<Shape>, now: seq<Shape>, from: nat, k: nat)
    requires k < |batch| == |arrivals| == |start| == |now|
  {
    now[k] == ShapeAt(batch, cache, arrivals, start, from, k)
  }

  function ShapeAt(batch: seq<Datapoint>, cache: map<Key, Stored>, arrivals: seq<Arrival>, start: seq<Shape>, from: nat, k: nat): Shape
    requires k < |batch| == |arrivals| == |start|
  {
    if k < from then start[k] else start[k].Converted(batch[k].key, After(cache, arrivals[..|batch| - 1 - k]))
  }

  lemma ConvertedStep(batch: seq<Datapoint>, cache: map<Key, Stored>, arrivals: seq<Arrival>, start: seq<Shape>, now: seq<Shape>, i: nat)
    requires i < |batch| == |arrivals| == |start| == |now|
    requires ConvertedFrom(batch, cache, arrivals, start, now, i + 1)
    ensures now[i] == start[i]
    ensures ConvertedFrom(batch, cache, arrivals, start, now[i := ShapeAt(batch, cache, arrivals, start, i, i)], i)
  {
    var after := now[i := ShapeAt(batch, cache, arrivals, start, i, i)];
    forall k: nat | k < |batch| ensures ConvertedAt(batch, cache, arrivals, start, after, i, k) {
      assert ConvertedAt(batch, cache, arrivals, start, now, i + 1, k);
    }
    assert ConvertedAt(batch, cache, arrivals, start, now, i + 1, i);
  }

  lemma KeptStep(batch: seq<Datapoint>, cache: map<Key, Stored>, arrivals: seq<Arrival>, kept: seq<Datapoint>, i: nat)
    requires i < |batch| == |arrivals| && kept == batch[..i + 1] + Kept(batch, cache, arrivals, i + 1)
    ensures kept[i] == batch[i]
    ensures batch[..i] + Kept(batch, cache, arrivals, i)
         == if KeepsAt(cache, arrivals, |batch| - 1 - i) then kept else kept[..i] + kept[i + 1..]
  {
  }

  /** One datapoint. */
  method ProcessDatapoint(conv: CumToDeltaConv, d: Datapoint, ghost shape: Shape) returns (ok: bool)
    requires shape == Shape(d.time, d.cumPoint, d.sum)
    modifies conv, d
    ensures conv.cache == Arrived(old(conv.cache), shape.Arriving(d.key))
    ensures ok <==> Keeps(old(conv.cache), shape.Arriving(d.key))
    ensures Shape(if ok then Truncated(d.time) else d.time, d.cumPoint, d.sum) == shape.Converted(d.key, old(conv.cache))
    ensures old(d.cumPoint).Some? && d.key in old(conv.cache) && old(d.time) < old(conv.cache)[d.key].time ==>
      !ok && conv.cache == old(conv.cache)
    ensures old(d.cumPoint).Some? && !(d.key in old(conv.cache) && old(d.time) < old(conv.cache)[d.key].time) ==>
      conv.cache == old(conv.cache)[d.key := Stored(old(d.cumPoint).value, old(d.time))]
    ensures !ok ==> unchanged(d)
    ensures ok && old(d.cumPoint).Some? ==>
      && d.cumPoint == None && d.key in old(conv.cache)
      && var growth := Delta(old(d.cumPoint).value, old(conv.cache)[d.key].point);
         d.sum == if growth > 0.0 then growth else old(d.sum)
  {
    if d.cumPoint.None? { return true; }
    var point := d.cumPoint.value;
    var prior := conv.SwapPoint(d.key, point, d.time);
    if prior.None? { return false; }
    var delta := Sub64(point.int64, prior.value.int64);
    if delta > 0 {
      d.sum := delta as real;
    } else if point.double - prior.value.double > 0.0 {
      d.sum := point.double - prior.value.double;
    }
    d.cumPoint := None;
    ok := true;
  }

  /** One turn of the loop over the batch, without the deletion. */
  method ConvertDatapoint(conv: CumToDeltaConv, d: Datapoint, ghost shape: Shape) returns (ok: bool)
    requires shape == Shape(d.time, d.cumPoint, d.sum)
    modifies conv, d
    ensures conv.cache == Arrived(old(conv.cache), shape.Arriving(d.key))
    ensures ok <==> Keeps(old(conv.cache), shape.Arriving(d.key))
    ensures Shape(d.time, d.cumPoint, d.sum) == shape.Converted(d.key, old(conv.cache))
  {
    ok := ProcessDatapoint(conv, d, shape);
    if ok {
      d.time := Truncated(d.time);
    }
  }

  /** The same inside a batch. */
  method ConvertAt(conv: CumToDeltaConv, batch: seq<Datapoint>, i: nat, ghost cache: map<Key, Stored>, ghost start: seq<Shape>,
                   ghost arrivals: seq<Arrival>, ghost now: seq<Shape>) returns (ok: bool)
    requires i < |batch| == |start| == |arrivals| && Hold(batch, now) && now[i] == start[i] && WalksAt(batch, start, arrivals, i)
    requires forall k :: 0 <= k < |batch| && k != i ==> batch[k] != batch[i]
    requires conv.cache == After(cache, arrivals[..|batch| - 1 - i])
    modifies conv, batch[i]
    ensures conv.cache == Arrived(old(conv.cache), arrivals[|batch| - 1 - i])
    ensures ok <==> KeepsAt(cache, arrivals, |batch| - 1 - i)
    ensures Hold(batch, now[i := ShapeAt(batch, cache, arrivals, start, i, i)])
  {
    ok := ConvertDatapoint(conv, batch[i], now[i]);
  }

  lemma {:induction false} AfterStep(cache: map<Key, Stored>, arrivals: seq<Arrival>, i: nat)
    requires i < |arrivals|
    ensures After(cache, arrivals[..i + 1]) == Arrived(After(cache, arrivals[..i]), arrivals[i])
  {
    assert arrivals[..i + 1][..i] == arrivals[..i];
  }

  /** A batch: the datapoints that are not converted are deleted from the list while it is
      walked backwards; the others stay, in their order. */
  method ProcessDatapoints(conv: CumToDeltaConv, batch: seq<Datapoint>, ghost start: seq<Shape>, ghost arrivals: seq<Arrival>)
    returns (kept: seq<Datapoint>, ghost now: seq<Shape>)
    requires forall i, j :: 0 <= i < j < |batch| ==> batch[i] != batch[j]
    requires Hold(batch, start) && WalksAs(batch, start, arrivals)
    modifies conv, batch
    ensures conv.cache == After(old(conv.cache), arrivals)
    ensures kept == Kept(batch, old(conv.cache), arrivals, 0)
    ensures Hold(batch, now) && ConvertedFrom(batch, old(conv.cache), arrivals, start, now, 0)
  {
    kept, now := batch, start;
    forall k: nat | k < |batch| ensures ConvertedAt(batch, conv.cache, arrivals, start, now, |batch|, k) {}
    ghost var cache := conv.cache;
    assert arrivals[..|batch|] == arrivals;
    ghost var done := 0;
    var i := |batch|;
    while i > 0
      invariant 0 <= i <= |batch| && done == |batch| - i
      invariant conv.cache == After(cache, arrivals[..done])
      invariant kept == batch[..i] + Kept(batch, cache, arrivals, i)
      invariant Hold(batch, now) && ConvertedFrom(batch, cache, arrivals, start, now, i)
    {
      i := i - 1;
      ConvertedStep(batch, cache, arrivals, start, now, i);
      KeptStep(batch, cache, arrivals, kept, i);
      AfterStep(cache, arrivals, done);
      done := done + 1;
      assert WalksAt(batch, start, arrivals, i) && kept[i] == batch[i];
      var ok := ConvertAt(conv, batch, i, cache, start, arrivals, now);
      now := now[i := ShapeAt(batch, cache, arrivals, start, i, i)];
      if !ok {
        kept := kept[..i] + kept[i + 1..];
      }
    }
  }

  // ---------------------------------------------------------------------------
  // Conservation
  // ---------------------------------------------------------------------------

  /** Some values leave the cache between arrivals, or none do. */
  datatype Event = Arrive(a: Arrival) | Evict(keys: set<Key>)

  function CacheAfter(events: seq<Event>): map<Key, Stored> {
    if events == [] then map[]
    else
      var before := CacheAfter(events[..|events| - 1]);
      match events[|events| - 1]
      case Arrive(a) => Arrived(before, a)
      case Evict(keys) => before - keys
  }

  /** Arrivals as events, after others. */
  function Followed(events: seq<Event>, arrivals: seq<Arrival>): (longer: seq<Event>)
    ensures |longer| == |events| + |arrivals|
    ensures forall i :: 0 <= i < |arrivals| ==> longer[|events| + i] == Arrive(arrivals[i])
  {
    if arrivals == [] then events
    else Followed(events, arrivals[..|arrivals| - 1]) + [Arrive(arrivals[|arrivals| - 1])]
  }

  /** A batch, walked backwards, is a run of arrivals like any other. */
  lemma {:induction false} BatchIsRunOfEvents(events: seq<Event>, arrivals: seq<Arrival>)
    ensures CacheAfter(Followed(events, arrivals)) == After(CacheAfter(events), arrivals)
  {
    if arrivals != [] {
      var before := Followed(events, arrivals[..|arrivals| - 1]);
      BatchIsRunOfEvents(events, arrivals[..|arrivals| - 1]);
      assert Followed(events, arrivals)[..|before|] == before;
    }
  }

  /** The position holds a point of the counter. */
  predicate IsPoint(events: seq<Event>, key: Key, i: int) {
    0 <= i < |events| && events[i].Arrive? && events[i].a.key == key && events[i].a.point.Some?
  }

  /** All that is emitted for the counter. */
  function Total(events: seq<Event>, key: Key): real {
    if events == [] then 0.0
    else
      var last, before := |events| - 1, events[..|events| - 1];
      Total(before, key) + if IsPoint(events, key, last) then Emitted(CacheAfter(before), events[last].a) else 0.0
  }

  /** The sums of the counter's datapoints. */
  ghost function SumOf(datapoints: seq<Datapoint>, key: Key): real
    reads datapoints
  {
    if datapoints == [] then 0.0
    else (if datapoints[0].key == key then datapoints[0].sum else 0.0) + SumOf(datapoints[1..], key)
  }

  /** The datapoints of the counter come in with a cumulative point, and without a sum. */
  predicate Cumulative(batch: seq<Datapoint>, start: seq<Shape>, key: Key)
    requires |batch| == |start|
  {
    forall k :: 0 <= k < |batch| && batch[k].key == key ==> start[k].cumPoint.Some? && start[k].sum == 0.0
  }

  lemma ConvertedEmits(shape: Shape, key: Key, cache: map<Key, Stored>)
    requires shape.cumPoint.Some? && shape.sum == 0.0
    ensures Emitted(cache, shape.Arriving(key))
         == if Keeps(cache, shape.Arriving(key)) then shape.Converted(key, cache).sum else 0.0
  {
  }

  /** What one datapoint of the counter contributes is what its arrival emits. */
  lemma KeptSumStep(batch: seq<Datapoint>, cache: map<Key, Stored>, arrivals: seq<Arrival>,
                    start: seq<Shape>, now: seq<Shape>, key: Key, from: nat)
    requires |start| == |batch| && WalksAs(batch, start, arrivals) && Cumulative(batch, start, key)
    requires Hold(batch, now) && ConvertedFrom(batch, cache, arrivals, start, now, 0) && from < |batch|
    ensures var n := |batch| - 1 - from;
      SumOf(Kept(batch, cache, arrivals, from), key)
      == (if batch[from].key == key then Emitted(After(cache, arrivals[..n]), arrivals[n]) else 0.0)
         + SumOf(Kept(batch, cache, arrivals, from + 1), key)
  {
    var before, rest := After(cache, arrivals[..|batch| - 1 - from]), Kept(batch, cache, arrivals, from + 1);
    assert WalksAt(batch, start, arrivals, from);
    assert batch[from].sum == start[from].Converted(batch[from].key, before).sum by {
      assert ConvertedAt(batch, cache, arrivals, start, now, 0, from);
    }
    if batch[from].key == key { ConvertedEmits(start[from], key, before); }
    assert ([batch[from]] + rest)[1..] == rest;
  }

  lemma {:induction false} SumsFrom(batch: seq<Datapoint>, cache: map<Key, Stored>, arrivals: seq<Arrival>,
                                    start: seq<Shape>, now: seq<Shape>, key: Key, from: nat)
    requires |start| == |batch| && WalksAs(batch, start, arrivals) && Cumulative(batch, start, key)
    requires Hold(batch, now) && ConvertedFrom(batch, cache, arrivals, start, now, 0) && from <= |batch|
    ensures SumOf(Kept(batch, cache, arrivals, from), key) == EmittedSum(cache, arrivals, |batch| - from, key)
    decreases |batch| - from
  {
    if from < |batch| {
      SumsFrom(batch, cache, arrivals, start, now, key, from + 1);
      KeptSumStep(batch, cache, arrivals, start, now, key, from);
      assert WalksAt(batch, start, arrivals, from);
    }
  }

  /** What follows a run adds what it emits to the total. */
  lemma {:induction false} FollowedTotal(events: seq<Event>, arrivals: seq<Arrival>, n: nat, key: Key)
    requires n <= |arrivals|
    ensures Total(Followed(events, arrivals[..n]), key)
         == Total(events, key) + EmittedSum(CacheAfter(events), arrivals, n, key)
  {
    if n > 0 {
      var longer, last := Followed(events, arrivals[..n]), arrivals[n - 1];
      FollowedTotal(events, arrivals, n - 1, key);
      assert arrivals[..n][..n - 1] == arrivals[..n - 1];
      BatchIsRunOfEvents(events, arrivals[..n - 1]);
      assert longer[..|longer| - 1] == Followed(events, arrivals[..n - 1]);
      assert IsPoint(longer, key, |longer| - 1) <==> last.key == key && last.point.Some?;
    }
  }

  /** What ProcessDatapoints leaves: the sums of the datapoints that are kept are what the batch adds
      to the total of its counter. */
  lemma {:induction false} BatchSumsAreTotal(events: seq<Event>, batch: seq<Datapoint>, arrivals: seq<Arrival>,
                          start: seq<Shape>, now: seq<Shape>, key: Key)
    requires |start| == |batch| && WalksAs(batch, start, arrivals) && Cumulative(batch, start, key)
    requires Hold(batch, now) && ConvertedFrom(batch, CacheAfter(events), arrivals, start, now, 0)
    ensures SumOf(Kept(batch, CacheAfter(events), arrivals, 0), key)
         == Total(Followed(events, arrivals), key) - Total(events, key)
  {
    SumsFrom(batch, CacheAfter(events), arrivals, start, now, key, 0);
    FollowedTotal(events, arrivals, |arrivals|, key);
    assert arrivals[..|arrivals|] == arrivals;
  }

  function Value(point: Point): real {
    point.int64 as real + point.double
  }

  /** The counter counts either in integers, which are not negative, or in doubles. */
  predicate OneKind(point: Point, ints: bool) {
    if ints then point.double == 0.0 && 0 <= point.int64 < TWO_63 else point.int64 == 0
  }

  /** The points of the counter do not go down in time. */
  ghost predicate IsCounter(events: seq<Event>, key: Key, ints: bool) {
    && (forall i :: IsPoint(events, key, i) ==> OneKind(events[i].a.point.value, ints))
    && (forall i, j ::
         IsPoint(events, key, i) && IsPoint(events, key, j) && events[i].a.time <= events[j].a.time ==>
           Value(events[i].a.point.value) <= Value(events[j].a.point.value))
  }

  predicate NoEviction(events: seq<Event>) {
    forall i :: 0 <= i < |events| ==> events[i].Arrive?
  }

  /** The first point of the counter to arrive. */
  ghost predicate IsFirst(events: seq<Event>, key: Key, first: int) {
    IsPoint(events, key, first) && forall i :: IsPoint(events, key, i) ==> first <= i
  }

  /** What the cache holds for the counter is the point that arrived at this position. */
  predicate StoredAt(events: seq<Event>, key: Key, i: int) {
    && IsPoint(events, key, i)
    && key in CacheAfter(events) && CacheAfter(events)[key] == Stored(events[i].a.point.value, events[i].a.time)
  }

  /** It is the latest one. */
  ghost predicate IsLatest(events: seq<Event>, key: Key, i: int) {
    IsPoint(events, key, i) && forall j :: IsPoint(events, key, j) ==> events[j].a.time <= events[i].a.time
  }

  lemma PointsOfPrefix(events: seq<Event>, key: Key, i: int)
    requires events != []
    ensures IsPoint(events[..|events| - 1], key, i) <==> IsPoint(events, key, i) && i < |events| - 1
  {
  }

  /** `tail` follows `prefix`, and the counter starts anew: the cache does not hold it, and none of
      it is evicted. Then `tail` emits the value of its latest point less that of its first one. */
  lemma {:induction false} ConservationAfter(prefix: seq<Event>, tail: seq<Event>, key: Key, ints: bool, first: int)
    returns (latest: int)
    requires key !in CacheAfter(prefix)
    requires NoEviction(tail) && IsCounter(tail, key, ints) && IsFirst(tail, key, first)
    ensures IsLatest(tail, key, latest) && key in CacheAfter(prefix + tail)
    ensures CacheAfter(prefix + tail)[key] == Stored(tail[latest].a.point.value, tail[latest].a.time)
    ensures Total(prefix + tail, key)
         == Total(prefix, key) + Value(tail[latest].a.point.value) - Value(tail[first].a.point.value)
    decreases |tail|
  {
    var last, before := |tail| - 1, tail[..|tail| - 1];
    assert (prefix + tail)[..|prefix + tail| - 1] == prefix + before;
    forall i ensures IsPoint(before, key, i) <==> IsPoint(tail, key, i) && i < last { PointsOfPrefix(tail, key, i); }
    if first == last {
      NothingAdded(prefix, before, key);
      latest := last;
    } else {
      latest := ConservationAfter(prefix, before, key, ints, first);
      if IsPoint(tail, key, last) && tail[last].a.time >= tail[latest].a.time {
        assert IsPoint(tail, key, latest);
        latest := last;
      }
    }
  }

  lemma {:induction false} NothingAdded(prefix: seq<Event>, tail: seq<Event>, key: Key)
    requires NoEviction(tail) && forall i :: !IsPoint(tail, key, i)
    ensures key in CacheAfter(prefix + tail) <==> key in CacheAfter(prefix)
    ensures Total(prefix + tail, key) == Total(prefix, key)
    decreases |tail|
  {
    if tail == [] {
      assert prefix + tail == prefix;
    } else {
      var before := tail[..|tail| - 1];
      assert (prefix + tail)[..|prefix + tail| - 1] == prefix + before;
      forall i ensures !IsPoint(before, key, i) { PointsOfPrefix(tail, key, i); }
      NothingAdded(prefix, before, key);
      assert !IsPoint(tail, key, |tail| - 1);
    }
  }

  /** Points of a counter that goes up in time, arriving in any order, with no eviction: what is
      emitted for the counter is the value of its latest point less the value of the first one
      to arrive; and the cache holds the latest. */
  lemma Conservation(events: seq<Event>, key: Key, ints: bool, first: int) returns (latest: int)
    requires NoEviction(events) && IsCounter(events, key, ints) && IsFirst(events, key, first)
    ensures StoredAt(events, key, latest) && IsLatest(events, key, latest)
    ensures Total(events, key) == Value(events[latest].a.point.value) - Value(events[first].a.point.value)
  {
    assert [] + events == events;
    latest := ConservationAfter([], events, key, ints, first);
  }

  lemma {:induction false} NothingBefore(events: seq<Event>, key: Key)
    requires forall i :: !IsPoint(events, key, i)
    ensures key !in CacheAfter(events) && Total(events, key) == 0.0
  {
    if events != [] {
      var before := events[..|events| - 1];
      forall i ensures !IsPoint(before, key, i) { PointsOfPrefix(events, key, i); }
      NothingBefore(before, key);
      assert !IsPoint(events, key, |events| - 1);
    }
  }

  ghost predicate InOrder(events: seq<Event>, key: Key) {
    forall i, j ::
      IsPoint(events, key, i) && IsPoint(events, key, j) && i < j ==> events[i].a.time <= events[j].a.time
  }

  /** The last point of the counter to arrive. */
  ghost predicate IsLast(events: seq<Event>, key: Key, last: int) {
    IsPoint(events, key, last) && forall i :: IsPoint(events, key, i) ==> i <= last
  }

  /** With any evictions, but points that arrive in the order of time: what is emitted is never
      more than what the counter has gone up by. */
  lemma {:induction false} EvictionsLoseOnly(events: seq<Event>, key: Key, ints: bool, first: int, last: int)
    requires IsCounter(events, key, ints) && InOrder(events, key)
    requires IsFirst(events, key, first) && IsLast(events, key, last)
    ensures 0.0 <= Total(events, key) <= Value(events[last].a.point.value) - Value(events[first].a.point.value)
    ensures key in CacheAfter(events) ==> StoredAt(events, key, last)
    decreases |events|
  {
    var end, before := |events| - 1, events[..|events| - 1];
    forall i ensures IsPoint(before, key, i) <==> IsPoint(events, key, i) && i < end { PointsOfPrefix(events, key, i); }
    if first == end {
      NothingBefore(before, key);
    } else if last < end {
      EvictionsLoseOnly(before, key, ints, first, last);
      assert !IsPoint(events, key, end);
    } else {
      var prior := LastPoint(before, key, first);
      EvictionsLoseOnly(before, key, ints, first, prior);
      assert IsPoint(events, key, prior) && IsPoint(events, key, first);
      assert events[prior].a.time <= events[end].a.time;
    }
  }

  lemma {:induction false} LastPoint(events: seq<Event>, key: Key, some: int) returns (last: int)
    requires IsPoint(events, key, some)
    ensures IsLast(events, key, last)
  {
    if IsPoint(events, key, |events| - 1) {
      last := |events| - 1;
    } else {
      PointsOfPrefix(events, key, some);
      last := LastPoint(events[..|events| - 1], key, some);
      PointsOfPrefix(events, key, last);
      forall i | IsPoint(events, key, i) ensures i <= last { PointsOfPrefix(events, key, i); }
    }
  }

  // ---------------------------------------------------------------------------
  // Evictions in general
  // ---------------------------------------------------------------------------

  /** The value that the cache holds for the counter, or 0. */
  function Held(cache: map<Key, Stored>, key: Key): real {
    if key in cache then Value(cache[key].point) else 0.0
  }

  /** The values of the counter at each of its evictions. */
  function EvictedSum(events: seq<Event>, key: Key): real {
    if events == [] then 0.0
    else
      var before, last := events[..|events| - 1], events[|events| - 1];
      EvictedSum(before, key) + if last.Evict? && key in last.keys then Held(CacheAfter(before), key) else 0.0
  }

  /** The values with which the counter starts, and starts anew. */
  function OpeningSum(events: seq<Event>, key: Key): real {
    if events == [] then 0.0
    else
      var last, before := |events| - 1, events[..|events| - 1];
      OpeningSum(before, key)
      + if IsPoint(events, key, last) && key !in CacheAfter(before) then Value(events[last].a.point.value) else 0.0
  }

  lemma {:induction false} StoredIsPoint(events: seq<Event>, key: Key) returns (i: int)
    requires key in CacheAfter(events)
    ensures StoredAt(events, key, i)
  {
    var last, before := |events| - 1, events[..|events| - 1];
    if IsPoint(events, key, last) && CacheAfter(events)[key] == Stored(events[last].a.point.value, events[last].a.time) {
      i := last;
    } else {
      i := StoredIsPoint(before, key);
    }
  }

  lemma CounterOfPrefix(events: seq<Event>, key: Key, ints: bool)
    requires events != [] && IsCounter(events, key, ints)
    ensures IsCounter(events[..|events| - 1], key, ints)
  {
    var before := events[..|events| - 1];
    forall i ensures IsPoint(before, key, i) ==> IsPoint(events, key, i) && before[i] == events[i] {
      PointsOfPrefix(events, key, i);
    }
  }

  /** A point of the counter that arrives after the others emits what it lies above the stored
      one, if it is not older; and if it is, it does not lie above. */
  lemma {:induction false} ArrivalEmits(events: seq<Event>, key: Key, ints: bool)
    requires IsCounter(events, key, ints) && IsPoint(events, key, |events| - 1)
    ensures var before, v := CacheAfter(events[..|events| - 1]), Value(events[|events| - 1].a.point.value);
      && key in CacheAfter(events)
      && (key in before ==>
           && Emitted(before, events[|events| - 1].a) == Held(CacheAfter(events), key) - Held(before, key)
           && Held(CacheAfter(events), key) == if v > Held(before, key) then v else Held(before, key))
      && (key !in before ==>
           Emitted(before, events[|events| - 1].a) == 0.0 && Held(CacheAfter(events), key) == v)
  {
    var last, before := |events| - 1, events[..|events| - 1];
    if key in CacheAfter(before) {
      var i := StoredIsPoint(before, key);
      PointsOfPrefix(events, key, i);
      assert IsPoint(events, key, i) && IsPoint(events, key, last);
    }
  }

  /** For every run, with any evictions and in any order: what is emitted for a counter is what
      the cache holds for it, and what it held at each eviction, less what the counter started
      with each time. */
  lemma {:induction false} Accounting(events: seq<Event>, key: Key, ints: bool)
    requires IsCounter(events, key, ints)
    ensures Total(events, key) == Held(CacheAfter(events), key) + EvictedSum(events, key) - OpeningSum(events, key)
  {
    if events != [] {
      CounterOfPrefix(events, key, ints);
      Accounting(events[..|events| - 1], key, ints);
      if IsPoint(events, key, |events| - 1) { ArrivalEmits(events, key, ints); }
    }
  }

  /** The arrivals of a run. */
  function WithoutEvictions(events: seq<Event>): (run: seq<Event>)
    ensures NoEviction(run)
  {
    if events == [] then []
    else
      var last := events[|events| - 1];
      WithoutEvictions(events[..|events| - 1]) + if last.Arrive? then [last] else []
  }

  /** The counter rises after it has fallen, in the order of arrival. */
  ghost predicate RisesAgain(run: seq<Event>, key: Key) {
    exists i, j, k :: Dips(run, key, i, j, k)
  }

  predicate Dips(run: seq<Event>, key: Key, i: int, j: int, k: int) {
    && IsPoint(run, key, i) && IsPoint(run, key, j) && IsPoint(run, key, k) && i < j < k
    && Value(run[j].a.point.value) < Value(run[i].a.point.value)
    && Value(run[j].a.point.value) < Value(run[k].a.point.value)
  }

  /** No point has a greater value. */
  ghost predicate IsTop(run: seq<Event>, key: Key, top: int) {
    && IsPoint(run, key, top)
    && forall i :: IsPoint(run, key, i) ==> Value(run[i].a.point.value) <= Value(run[top].a.point.value)
  }

  /** A point of the run is one of the arrivals. */
  lemma {:induction false} PointArrives(events: seq<Event>, key: Key, i: int) returns (j: int)
    requires IsPoint(events, key, i)
    ensures IsPoint(WithoutEvictions(events), key, j) && WithoutEvictions(events)[j] == events[i]
  {
    if i == |events| - 1 {
      j := |WithoutEvictions(events)| - 1;
    } else {
      PointsOfPrefix(events, key, i);
      j := PointArrives(events[..|events| - 1], key, i);
    }
  }

  lemma {:induction false} CounterWithEvictions(events: seq<Event>, key: Key, ints: bool)
    requires IsCounter(WithoutEvictions(events), key, ints)
    ensures IsCounter(events, key, ints)
  {
    forall i | IsPoint(events, key, i) ensures OneKind(events[i].a.point.value, ints) {
      var j := PointArrives(events, key, i);
    }
    forall i, j | IsPoint(events, key, i) && IsPoint(events, key, j) && events[i].a.time <= events[j].a.time
      ensures Value(events[i].a.point.value) <= Value(events[j].a.point.value)
    {
      var i' := PointArrives(events, key, i);
      var j' := PointArrives(events, key, j);
    }
  }

  /** The top of the arrivals before the last one, if they do not rise again. */
  lemma TopBefore(run: seq<Event>, key: Key, top: int, prior: int) returns (before: int)
    requires run != [] && IsTop(run, key, top) && !RisesAgain(run, key)
    requires IsPoint(run, key, |run| - 1) && IsLast(run[..|run| - 1], key, prior)
    ensures IsTop(run[..|run| - 1], key, before)
    ensures Value(run[|run| - 1].a.point.value) > Value(run[prior].a.point.value) ==>
      Value(run[before].a.point.value) == Value(run[prior].a.point.value) && Value(run[top].a.point.value) == Value(run[|run| - 1].a.point.value)
    ensures Value(run[before].a.point.value) <= Value(run[top].a.point.value)
  {
    var last := |run| - 1;
    forall i ensures IsPoint(run[..last], key, i) <==> IsPoint(run, key, i) && i < last { PointsOfPrefix(run, key, i); }
    assert IsPoint(run, key, prior);
    if Value(run[last].a.point.value) > Value(run[prior].a.point.value) {
      before := prior;
      forall i | IsPoint(run, key, i) && i < last
        ensures Value(run[i].a.point.value) <= Value(run[prior].a.point.value)
      {
        assert !Dips(run, key, i, prior, last);
      }
    } else {
      before := if top == last then prior else top;
    }
  }

  /** If the values do not rise again, no evictions make the total greater than what the counter
      has gone up by. */
  lemma {:induction false} BoundedUnlessRising(events: seq<Event>, key: Key, ints: bool, first: int, last: int, top: int)
    requires IsCounter(events, key, ints) && !RisesAgain(WithoutEvictions(events), key)
    requires IsFirst(WithoutEvictions(events), key, first) && IsLast(WithoutEvictions(events), key, last)
    requires IsTop(WithoutEvictions(events), key, top)
    ensures var run := WithoutEvictions(events);
      && Total(events, key) <= Value(run[top].a.point.value) - Value(run[first].a.point.value)
      && (key in CacheAfter(events) ==> Held(CacheAfter(events), key) >= Value(run[last].a.point.value))
    decreases |events|
  {
    var end, before := |events| - 1, events[..|events| - 1];
    var run, earlier := WithoutEvictions(events), WithoutEvictions(before);
    CounterOfPrefix(events, key, ints);
    if events[end].Evict? {
      assert run == earlier;
      BoundedUnlessRising(before, key, ints, first, last, top);
    } else {
      assert run == earlier + [events[end]] && run[..|run| - 1] == earlier;
      forall i ensures IsPoint(earlier, key, i) <==> IsPoint(run, key, i) && i < |run| - 1 { PointsOfPrefix(run, key, i); }
      forall i, j, k | Dips(earlier, key, i, j, k) ensures false { assert Dips(run, key, i, j, k); }
      if !IsPoint(run, key, |run| - 1) {
        BoundedUnlessRising(before, key, ints, first, last, top);
      } else if first == last {
        assert forall i :: !IsPoint(earlier, key, i);
        ArrivalEmits(events, key, ints);
        forall i | IsPoint(before, key, i) ensures false { var j := PointArrives(before, key, i); }
        NothingBefore(before, key);
      } else {
        var prior := LastPoint(earlier, key, first);
        var topBefore := TopBefore(run, key, top, prior);
        BoundedUnlessRising(before, key, ints, first, prior, topBefore);
        ArrivalEmits(events, key, ints);
      }
    }
  }

  lemma {:induction false} NoneEvicted(run: seq<Event>)
    requires NoEviction(run)
    ensures WithoutEvictions(run) == run
  {
    if run != [] { NoneEvicted(run[..|run| - 1]); }
  }

  lemma {:induction false} EvictedBetween(prefix: seq<Event>, keys: set<Key>, tail: seq<Event>)
    requires NoEviction(prefix) && NoEviction(tail)
    ensures WithoutEvictions(prefix + [Evict(keys)] + tail) == prefix + tail
    decreases |tail|
  {
    var events := prefix + [Evict(keys)] + tail;
    if tail == [] {
      assert events[..|events| - 1] == prefix;
      NoneEvicted(prefix);
    } else {
      var before := tail[..|tail| - 1];
      assert events[..|events| - 1] == prefix + [Evict(keys)] + before;
      EvictedBetween(prefix, keys, before);
    }
  }

  /** If they do, an eviction at the dip makes the total greater. */
  lemma EvictionAtDip(run: seq<Event>, key: Key, ints: bool, first: int, top: int, i: int, j: int, k: int) returns (events: seq<Event>)
    requires NoEviction(run) && IsCounter(run, key, ints) && IsFirst(run, key, first) && IsTop(run, key, top)
    requires Dips(run, key, i, j, k)
    ensures WithoutEvictions(events) == run
    ensures Total(events, key) > Value(run[top].a.point.value) - Value(run[first].a.point.value)
  {
    var head, tail := run[..j], run[j..];
    forall x ensures IsPoint(head, key, x) <==> IsPoint(run, key, x) && x < j {}
    forall x ensures IsPoint(tail, key, x) <==> IsPoint(run, key, x + j) && x >= 0 {}
    assert IsPoint(head, key, i) && IsPoint(tail, key, 0) && IsPoint(tail, key, k - j);
    PartsOfCounter(run, key, ints, j);
    var low := Conservation(head, key, ints, first);
    LatestIsTop(head, key, ints, low);
    var prefix := head + [Evict({key})];
    assert prefix[..|prefix| - 1] == head;
    assert !IsPoint(prefix, key, |prefix| - 1);
    var high := ConservationAfter(prefix, tail, key, ints, 0);
    LatestIsTop(tail, key, ints, high);
    events := prefix + tail;
    assert head + tail == run;
    EvictedBetween(head, {key}, tail);
    if top < j { assert IsPoint(head, key, top); } else { assert IsPoint(tail, key, top - j); }
  }

  lemma PartsOfCounter(run: seq<Event>, key: Key, ints: bool, j: nat)
    requires IsCounter(run, key, ints) && j <= |run|
    ensures IsCounter(run[..j], key, ints) && IsCounter(run[j..], key, ints)
  {
    forall x | IsPoint(run[..j], key, x) ensures IsPoint(run, key, x) && run[x] == run[..j][x] {}
    forall x | IsPoint(run[j..], key, x) ensures IsPoint(run, key, x + j) && run[x + j] == run[j..][x] {}
  }

  lemma LatestIsTop(run: seq<Event>, key: Key, ints: bool, latest: int)
    requires IsCounter(run, key, ints) && IsLatest(run, key, latest)
    ensures IsTop(run, key, latest)
  {
  }

  /** For the arrivals of a counter, in any order: the total stays within what the counter has
      gone up by, wherever evictions take place, if and only if its values, in the order of
      arrival, never rise again after they have fallen. */
  lemma {:induction false} NeverTooMuchIff(run: seq<Event>, key: Key, ints: bool, first: int, latest: int)
    requires NoEviction(run) && IsCounter(run, key, ints) && IsFirst(run, key, first) && IsLatest(run, key, latest)
    ensures (forall events :: WithoutEvictions(events) == run ==>
              Total(events, key) <= Value(run[latest].a.point.value) - Value(run[first].a.point.value))
       <==> !RisesAgain(run, key)
  {
    LatestIsTop(run, key, ints, latest);
    if RisesAgain(run, key) {
      var i, j, k :| Dips(run, key, i, j, k);
      var events := EvictionAtDip(run, key, ints, first, latest, i, j, k);
    } else {
      var last := LastPoint(run, key, first);
      forall events | WithoutEvictions(events) == run
        ensures Total(events, key) <= Value(run[latest].a.point.value) - Value(run[first].a.point.value)
      {
        CounterWithEvictions(events, key, ints);
        BoundedUnlessRising(events, key, ints, first, last, latest);
      }
    }
  }

  /** Without the order of time evictions may emit more: here the counter went up by 10, and 20
      are emitted. */
  lemma LateAfterEvictionCountsTwice() returns (events: seq<Event>)
    ensures IsCounter(events, 0, true) && IsFirst(events, 0, 0) && IsLatest(events, 0, 4)
    ensures Value(events[4].a.point.value) - Value(events[0].a.point.value) == 10.0
    ensures Total(events, 0) == 20.0
  {
    var low, high := Arrive(Arrival(0, Some(Point(0, 0.0)), 0)), Arrive(Arrival(0, Some(Point(10, 0.0)), 1));
    events := [low, high, Evict({0}), low, high];
    assert events[..4] == [low, high, Evict({0}), low] && events[..4][..3] == [low, high, Evict({0})];
    assert events[..3] == [low, high, Evict({0})] && events[..3][..2] == [low, high];
    assert events[..2] == [low, high] && events[..2][..1] == [low] && [low][..0] == [];
    assert CacheAfter([low]) == map[0 := Stored(Point(0, 0.0), 0)];
    assert CacheAfter([low, high]) == map[0 := Stored(Point(10, 0.0), 1)];
    assert Total([low], 0) == 0.0;
    assert Total([low, high], 0) == 10.0;
    assert CacheAfter(events[..3]) == map[];
    assert Total(events[..3], 0) == 10.0;
    assert CacheAfter(events[..4]) == map[0 := Stored(Point(0, 0.0), 0)];
    assert Total(events[..4], 0) == 10.0;
  }
}
