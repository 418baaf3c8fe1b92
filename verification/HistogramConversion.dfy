/** Turning a cumulative histogram point into the histogram of what came since the last one. */
module HistogramConversion {
  import opened Basics

  /** The sum divided by the count, as a float. */
  function Mean(sum: real, count: nat): Float {
    if count > 0 then Num(sum / count as real)
    else if sum > 0.0 then PosInf
    else if sum < 0.0 then NegInf
    else NaN
  }

  /** Dividing as floats do: by zero it gives an infinity, or what is not a number. */
  lemma MeanDivides(sum: real, count: nat)
    ensures count > 0 ==> Mean(sum, count).Num? && Mean(sum, count).value * count as real == sum
    ensures count == 0 ==> (Mean(sum, count) == NaN <==> sum == 0.0) && (Mean(sum, count) == PosInf <==> sum > 0.0)
    ensures count == 0 ==> (Mean(sum, count) == NegInf <==> sum < 0.0)
  {
  }

  const WRAP: nat := 0x1_0000_0000_0000_0000

  // ---------------------------------------------------------------------------
  // Bucket counts
  // ---------------------------------------------------------------------------

  function Sum(counts: seq<nat>): nat {
    if counts == [] then 0 else Sum(counts[..|counts| - 1]) + counts[|counts| - 1]
  }

  /** What came into each bucket; a bucket that shrank counts as empty. */
  function Deltas(counts: seq<nat>, prior: seq<nat>): (deltas: seq<nat>)
    requires |counts| == |prior|
    ensures |deltas| == |counts|
    ensures forall i :: 0 <= i < |deltas| ==> deltas[i] == if counts[i] > prior[i] then counts[i] - prior[i] else 0
  {
    if counts == [] then []
    else
      var last := |counts| - 1;
      Deltas(counts[..last], prior[..last]) + [if counts[last] > prior[last] then counts[last] - prior[last] else 0]
  }

  predicate Grows(prior: seq<nat>, counts: seq<nat>) {
    |prior| == |counts| && forall i :: 0 <= i < |counts| ==> prior[i] <= counts[i]
  }

  lemma {:induction false} GrowsStep(prior: seq<nat>, counts: seq<nat>, last: nat)
    requires |prior| == |counts| == last + 1
    ensures Grows(prior, counts) <==> Grows(prior[..last], counts[..last]) && prior[last] <= counts[last]
  {
    if Grows(prior[..last], counts[..last]) && prior[last] <= counts[last] {
      forall i | 0 <= i < |counts| ensures prior[i] <= counts[i] {
        if i < last { assert prior[..last][i] <= counts[..last][i]; }
      }
    }
  }

  /** The deltas add up to the difference of the sums exactly when every bucket grew; else to
      more. */
  lemma {:induction false} DeltasAddUpIff(counts: seq<nat>, prior: seq<nat>)
    requires |counts| == |prior|
    ensures Sum(Deltas(counts, prior)) >= Sum(counts) - Sum(prior)
    ensures Sum(Deltas(counts, prior)) == Sum(counts) - Sum(prior) <==> Grows(prior, counts)
  {
    if counts != [] {
      var last := |counts| - 1;
      DeltasAddUpIff(counts[..last], prior[..last]);
      GrowsStep(prior, counts, last);
      assert Deltas(counts, prior)[..last] == Deltas(counts[..last], prior[..last]);
    }
  }

  /** Overwrites the prior counts with the deltas. */
  method MakeDeltaCounts(counts: array<nat>, prevCounts: array<nat>) returns (deltas: array<nat>)
    requires counts != prevCounts && counts.Length == prevCounts.Length
    modifies prevCounts
    ensures deltas == prevCounts && deltas[..] == Deltas(counts[..], old(prevCounts[..]))
  {
    for i := 0 to counts.Length
      invariant forall k :: i <= k < counts.Length ==> prevCounts[k] == old(prevCounts[k])
      invariant forall k :: 0 <= k < i ==>
        prevCounts[k] == if counts[k] > old(prevCounts[k]) then counts[k] - old(prevCounts[k]) else 0
    {
      var prevCount := prevCounts[i];
      if counts[i] > prevCount {
        prevCounts[i] := counts[i] - prevCount;
      } else {
        prevCounts[i] := 0;
      }
    }
    return prevCounts;
  }

  // ---------------------------------------------------------------------------
  // The histogram
  // ---------------------------------------------------------------------------

  /** All counts of a map. */
  ghost function Total(m: map<int, nat>): nat
    decreases |m|
  {
    if m == map[] then 0
    else
      var k := SomeKey(m);
      m[k] + Total(m - {k})
  }

  ghost function SomeKey(m: map<int, nat>): (k: int)
    requires m != map[]
    ensures k in m
  {
    Any(m.Keys)
  }

  /** It does not matter which key is taken out first. */
  lemma {:induction false} TotalTakes(m: map<int, nat>, k: int)
    requires k in m
    ensures Total(m) == m[k] + Total(m - {k})
    decreases |m|
  {
    var first := SomeKey(m);
    if first != k {
      TotalTakes(m - {first}, k);
      TotalTakes(m - {k}, first);
      assert m - {first} - {k} == m - {k} - {first};
    }
  }

  /** Adding to one key adds to the total, unless 64 bits overflow. */
  lemma {:induction false} TotalAdds(m: map<int, nat>, k: int, count: nat)
    requires Total(m) + count < WRAP
    ensures Total(Added(m, k, count)) == Total(m) + count
  {
    var after := Added(m, k, count);
    TotalTakes(after, k);
    if k in m {
      TotalTakes(m, k);
      assert after - {k} == m - {k};
    } else {
      assert after - {k} == m;
    }
  }

  function Added(m: map<int, nat>, k: int, count: nat): map<int, nat> {
    m[k := ((if k in m then m[k] else 0) + count) % WRAP]
  }

  class QuickHistogram {
    const from: Float -> int  // rounds to the 16-bit key
    var m: map<int, nat>
    var min: Float
    var max: Float

    constructor (from: Float -> int, avg: Float)
      ensures this.from == from && m == map[] && min == max == avg
    {
      this.from, m, min, max := from, map[], avg, avg;
    }

    method Add(mean: Float, count: nat)
      modifies this
      ensures m == Added(old(m), from(mean), count)
      ensures min == if FloatLess(mean, old(min)) then mean else old(min)
      ensures max == if FloatLess(old(max), mean) then mean else old(max)
    {
      m := Added(m, from(mean), count);
      if FloatLess(mean, min) {
        min := mean;
      }
      if FloatLess(max, mean) {
        max := mean;
      }
    }
  }

  /** The mean that stands for a bucket: its upper bound for the first, the next float after
      its lower bound for the last, the middle for the others. */
  function BucketMean(bounds: seq<real>, next: real -> real, i: nat): real
    requires bounds != [] && i <= |bounds|
  {
    if i == 0 then bounds[0]
    else if i == |bounds| then next(bounds[i - 1])
    else (bounds[i] + bounds[i - 1]) / 2.0
  }

  /** The value that stands for a bucket: the first bound for the first bucket, the float after the last
      bound for the last one; for each other one the value that is as far from both of its bounds. */
  predicate StandsFor(bounds: seq<real>, next: real -> real, i: nat, mean: real)
    requires bounds != [] && i <= |bounds|
  {
    if i == 0 then mean == bounds[0]
    else if i == |bounds| then mean == next(bounds[|bounds| - 1])
    else mean - bounds[i - 1] == bounds[i] - mean
  }

  lemma MeanStandsFor(bounds: seq<real>, next: real -> real, i: nat)
    requires bounds != [] && i <= |bounds|
    ensures forall mean :: StandsFor(bounds, next, i, mean) <==> mean == BucketMean(bounds, next, i)
    ensures 0 < i < |bounds| && bounds[i - 1] <= bounds[i] ==> bounds[i - 1] <= BucketMean(bounds, next, i) <= bounds[i]
  {
  }

  /** The map after the buckets before `n`. */
  function Recorded(bounds: seq<real>, counts: seq<nat>, from: Float -> int, next: real -> real, n: nat): map<int, nat>
    requires bounds != [] && |counts| == |bounds| + 1 && n <= |counts|
  {
    if n == 0 then map[]
    else
      var m := Recorded(bounds, counts, from, next, n - 1);
      if counts[n - 1] > 0 then Added(m, from(Num(BucketMean(bounds, next, n - 1))), counts[n - 1]) else m
  }

  /** However the keys collide, no count is lost. */
  lemma {:induction false} RecordedTotal(bounds: seq<real>, counts: seq<nat>, from: Float -> int, next: real -> real, n: nat)
    requires bounds != [] && |counts| == |bounds| + 1 && n <= |counts| && Sum(counts[..n]) < WRAP
    ensures Total(Recorded(bounds, counts, from, next, n)) == Sum(counts[..n])
  {
    if n > 0 {
      assert counts[..n][..n - 1] == counts[..n - 1];
      RecordedTotal(bounds, counts, from, next, n - 1);
      if counts[n - 1] > 0 {
        TotalAdds(Recorded(bounds, counts, from, next, n - 1), from(Num(BucketMean(bounds, next, n - 1))), counts[n - 1]);
      }
    }
  }

  /** The sum of those of the first `n` counts that go to the key. */
  function CountUnder(keys: seq<int>, counts: seq<nat>, key: int, n: nat): (sum: nat)
    requires n <= |keys| == |counts|
  {
    if n == 0 then 0 else CountUnder(keys, counts, key, n - 1) + if keys[n - 1] == key then counts[n - 1] else 0
  }

  predicate Used(keys: seq<int>, counts: seq<nat>, key: int, n: nat)
    requires n <= |keys| == |counts|
  {
    exists i :: 0 <= i < n && counts[i] > 0 && keys[i] == key
  }

  lemma {:induction false} UnderStep(m: map<int, nat>, keys: seq<int>, counts: seq<nat>, key: int, last: nat)
    requires last < |keys| == |counts|
    requires key in m <==> Used(keys, counts, key, last)
    requires key in m ==> m[key] == CountUnder(keys, counts, key, last)
    requires CountUnder(keys, counts, key, last + 1) < WRAP
    ensures var after := if counts[last] > 0 then Added(m, keys[last], counts[last]) else m;
      && (key in after <==> Used(keys, counts, key, last + 1))
      && (key in after ==> after[key] == CountUnder(keys, counts, key, last + 1))
  {
    UsedStep(keys, counts, key, last);
    CountBounded(keys, counts, key, last);
  }

  /** Under each key stands the sum of the counts of exactly those buckets whose mean rounds to it; a
      key without such a bucket is not in the map. */
  lemma {:induction false} RecordedUnder(bounds: seq<real>, counts: seq<nat>, from: Float -> int, next: real -> real,
                                         keys: seq<int>, n: nat, key: int)
    requires bounds != [] && |keys| == |counts| == |bounds| + 1 && n <= |counts| && Sum(counts[..n]) < WRAP
    requires forall i, mean :: 0 <= i < |keys| && StandsFor(bounds, next, i, mean) ==> keys[i] == from(Num(mean))
    ensures key in Recorded(bounds, counts, from, next, n) <==> Used(keys, counts, key, n)
    ensures key in Recorded(bounds, counts, from, next, n) ==>
      Recorded(bounds, counts, from, next, n)[key] == CountUnder(keys, counts, key, n)
  {
    CountBounded(keys, counts, key, n);
    if n > 0 {
      var last := n - 1;
      assert counts[..n][..last] == counts[..last];
      RecordedUnder(bounds, counts, from, next, keys, last, key);
      MeanStandsFor(bounds, next, last);
      assert StandsFor(bounds, next, last, BucketMean(bounds, next, last));
      UnderStep(Recorded(bounds, counts, from, next, last), keys, counts, key, last);
    }
  }

  lemma UsedStep(keys: seq<int>, counts: seq<nat>, key: int, n: nat)
    requires n < |keys| == |counts|
    ensures Used(keys, counts, key, n + 1) <==> Used(keys, counts, key, n) || (counts[n] > 0 && keys[n] == key)
  {
  }

  lemma {:induction false} CountBounded(keys: seq<int>, counts: seq<nat>, key: int, n: nat)
    requires n <= |keys| == |counts|
    ensures CountUnder(keys, counts, key, n) <= Sum(counts[..n])
    ensures !Used(keys, counts, key, n) ==> CountUnder(keys, counts, key, n) == 0
  {
    if n > 0 {
      assert counts[..n][..n - 1] == counts[..n - 1];
      CountBounded(keys, counts, key, n - 1);
      UsedStep(keys, counts, key, n - 1);
    }
  }

  /** The limits of a histogram: the least and the greatest of the average and the means of the buckets
      that are not empty. If the average is not a number, neither are they. */
  predicate Limits(bounds: seq<real>, counts: seq<nat>, next: real -> real, n: nat, avg: Float, min: Float, max: Float)
    requires bounds != [] && |counts| == |bounds| + 1 && n <= |counts|
  {
    && IsOneOf(bounds, counts, next, n, avg, min) && !FloatLess(avg, min)
    && IsOneOf(bounds, counts, next, n, avg, max) && !FloatLess(max, avg)
    && (forall i :: 0 <= i < n && counts[i] > 0 ==>
         !FloatLess(Num(BucketMean(bounds, next, i)), min) && !FloatLess(max, Num(BucketMean(bounds, next, i))))
    && (avg == NaN ==> min == max == NaN)
  }

  predicate IsOneOf(bounds: seq<real>, counts: seq<nat>, next: real -> real, n: nat, avg: Float, x: Float)
    requires bounds != [] && |counts| == |bounds| + 1 && n <= |counts|
  {
    x == avg || exists i :: 0 <= i < n && counts[i] > 0 && x == Num(BucketMean(bounds, next, i))
  }

  lemma LimitsEnclose(bounds: seq<real>, counts: seq<nat>, next: real -> real, n: nat, avg: Float, min: Float, max: Float)
    requires bounds != [] && |counts| == |bounds| + 1 && n <= |counts|
    requires Limits(bounds, counts, next, n, avg, min, max) && avg.Num?
    ensures Encloses(bounds, counts, next, n, avg.value, min, max)
  {
  }

  /** The limits enclose the average and the mean of every bucket that is not empty. */
  predicate Encloses(bounds: seq<real>, counts: seq<nat>, next: real -> real, n: nat, avg: real, min: Float, max: Float)
    requires bounds != [] && |counts| == |bounds| + 1 && n <= |counts|
  {
    && min.Num? && max.Num? && min.value <= avg <= max.value
    && forall i :: 0 <= i < n && counts[i] > 0 ==> min.value <= BucketMean(bounds, next, i) <= max.value
  }

  /** Adds a bucket unless it is empty. */
  method AddBucket(h: QuickHistogram, bounds: seq<real>, counts: seq<nat>, ghost next: real -> real, ghost avg: Float,
                   i: nat, mean: real)
    requires bounds != [] && |counts| == |bounds| + 1 && i < |counts| && mean == BucketMean(bounds, next, i)
    requires h.m == Recorded(bounds, counts, h.from, next, i)
    requires Limits(bounds, counts, next, i, avg, h.min, h.max)
    modifies h
    ensures h.m == Recorded(bounds, counts, h.from, next, i + 1)
    ensures Limits(bounds, counts, next, i + 1, avg, h.min, h.max)
  {
    if counts[i] > 0 {
      h.Add(Num(mean), counts[i]);
    }
  }

  /** The histogram of the counts, if they fit the bounds; none, with zero limits, otherwise. */
  method NewBFloat16Histogram(bounds: seq<real>, counts: seq<nat>, avg: Float, from: Float -> int, next: real -> real)
    returns (m: map<int, nat>, min: Float, max: Float)
    ensures bounds == [] || |counts| != |bounds| + 1 ==> m == map[] && min == max == Num(0.0)
    ensures bounds != [] && |counts| == |bounds| + 1 ==>
      && m == Recorded(bounds, counts, from, next, |counts|)
      && Limits(bounds, counts, next, |counts|, avg, min, max)
      && (avg.Num? ==> Encloses(bounds, counts, next, |counts|, avg.value, min, max))
  {
    if |bounds| == 0 { return map[], Num(0.0), Num(0.0); }
    if |counts| - 1 != |bounds| { return map[], Num(0.0), Num(0.0); }
    var h := new QuickHistogram(from, avg);
    AddBucket(h, bounds, counts, next, avg, 0, bounds[0]);
    var prev := bounds[0];
    for i := 1 to |counts| - 1
      invariant h.m == Recorded(bounds, counts, from, next, i)
      invariant prev == bounds[i - 1]
      invariant Limits(bounds, counts, next, i, avg, h.min, h.max)
    {
      var upper := bounds[i];
      AddBucket(h, bounds, counts, next, avg, i, (upper + prev) / 2.0);
      prev := upper;
    }
    AddBucket(h, bounds, counts, next, avg, |counts| - 1, next(bounds[|bounds| - 1]));
    if avg.Num? { LimitsEnclose(bounds, counts, next, |counts|, avg, h.min, h.max); }
    return h.m, h.min, h.max;
  }

  // ---------------------------------------------------------------------------
  // Points
  // ---------------------------------------------------------------------------

  class HistogramPoint {
    const sum: real
    const count: nat
    const bounds: seq<real>
    const bucketCounts: array<nat>

    constructor (sum: real, count: nat, bounds: seq<real>, bucketCounts: array<nat>)
      ensures this.sum == sum && this.count == count && this.bounds == bounds && this.bucketCounts == bucketCounts
    {
      this.sum, this.count, this.bounds, this.bucketCounts := sum, count, bounds, bucketCounts;
    }

    /** The count is the sum of the buckets, and there is a bucket on each side of the bounds. */
    ghost predicate Consistent()
      reads this, bucketCounts
    {
      count == Sum(bucketCounts[..]) < WRAP && bounds != [] && bucketCounts.Length == |bounds| + 1
    }
  }

  class HistogramCache {
    var points: map<nat, HistogramPoint>
    var times: map<nat, int>

    constructor ()
      ensures points == map[] && times == map[]
    {
      points, times := map[], map[];
    }

    /** Each point comes with buckets of its own. */
    ghost predicate Valid()
      reads this
    {
      && points.Keys == times.Keys
      && forall a, b :: a in points && b in points && a != b ==> points[a].bucketCounts != points[b].bucketCounts
    }

    ghost predicate Owns(buckets: array<nat>)
      reads this
    {
      exists k :: k in points && points[k].bucketCounts == buckets
    }

    method SwapPoint(key: nat, point: HistogramPoint, time: int) returns (prior: HistogramPoint?)
      requires Valid() && !Owns(point.bucketCounts)
      modifies this
      ensures Valid()
      ensures prior == if key in old(points) && time >= old(times)[key] then old(points)[key] else null
      ensures if key in old(points) && time < old(times)[key] then points == old(points) && times == old(times)
              else points == old(points)[key := point] && times == old(times)[key := time]
    {
      if key in points {
        if time < times[key] { return null; }
        prior := points[key];
      } else {
        prior := null;
      }
      points, times := points[key := point], times[key := time];
    }
  }

  /** What is emitted for a histogram point. */
  datatype Emitted = Emitted(sum: real, count: nat, histogram: map<int, nat>, min: Float, max: Float)

  /** The histogram and the limits of what is emitted for these deltas. */
  predicate HistogramOf(e: Emitted, bounds: seq<real>, deltas: seq<nat>, from: Float -> int, next: real -> real) {
    if bounds != [] && |deltas| == |bounds| + 1 then
      && e.histogram == Recorded(bounds, deltas, from, next, |deltas|)
      && Limits(bounds, deltas, next, |deltas|, Mean(e.sum, e.count), e.min, e.max)
    else e.histogram == map[] && e.min == e.max == Num(0.0)
  }

  /** The conversion uses the buckets of the point before, which has left the cache, for its
      deltas; the buckets of all points in the cache stay as they are. If both counts are the
      sums of their buckets, the histogram holds exactly the difference of the counts if and
      only if no bucket shrank; and if that difference is positive, its limits enclose the
      average and all means. */
  method ConvertHistogramPoint(cache: HistogramCache, key: nat, point: HistogramPoint, time: int,
                               from: Float -> int, next: real -> real)
    returns (emitted: Option<Emitted>)
    requires cache.Valid() && !cache.Owns(point.bucketCounts)
    modifies cache, if key in cache.points then {cache.points[key].bucketCounts} else {}
    ensures cache.Valid()
    ensures point.bucketCounts[..] == old(point.bucketCounts[..])
    ensures emitted.Some? <==>
      key in old(cache.points) && time >= old(cache.times)[key]
      && old(cache.points)[key].bucketCounts.Length == point.bucketCounts.Length
      && old(cache.points)[key].count <= point.count
    ensures emitted.Some? ==> key in cache.points && cache.points[key] == point
    ensures forall k :: k in old(cache.points) && k != key ==>
      old(cache.points)[k].bucketCounts[..] == old(cache.points[k].bucketCounts[..])
    ensures emitted.Some? ==>
      && emitted.value.count == point.count - old(cache.points)[key].count
      && emitted.value.sum == point.sum - old(cache.points)[key].sum
      && HistogramOf(emitted.value, point.bounds, Deltas(point.bucketCounts[..], old(cache.points[key].bucketCounts[..])), from, next)
    ensures emitted.Some? && old(cache.points[key].Consistent()) && old(point.Consistent()) ==>
      (Total(emitted.value.histogram) == emitted.value.count
       <==> Grows(old(cache.points[key].bucketCounts[..]), point.bucketCounts[..]))
    ensures emitted.Some? && emitted.value.count > 0 && old(point.Consistent()) ==>
      var e := emitted.value;
      Encloses(point.bounds, Deltas(point.bucketCounts[..], old(cache.points[key].bucketCounts[..])), next,
               point.bucketCounts.Length, e.sum / e.count as real, e.min, e.max)
  {
    var prior := cache.SwapPoint(key, point, time);
    if prior == null { return None; }
    if point.bucketCounts.Length != prior.bucketCounts.Length { return None; }
    if point.count < prior.count { return None; }
    var sum, count := point.sum - prior.sum, point.count - prior.count;
    ghost var buckets := prior.bucketCounts[..];
    var counts := MakeDeltaCounts(point.bucketCounts, prior.bucketCounts);
    var avg := Mean(sum, count);
    var m, min, max := NewBFloat16Histogram(point.bounds, counts[..], avg, from, next);
    emitted := Some(Emitted(sum, count, m, min, max));
    HistogramConserves(point.bounds, point.bucketCounts[..], buckets, from, next);
  }

  lemma {:induction false} DeltasAtMostCounts(counts: seq<nat>, prior: seq<nat>)
    requires |counts| == |prior|
    ensures Sum(Deltas(counts, prior)) <= Sum(counts)
  {
    if counts != [] {
      var last := |counts| - 1;
      DeltasAtMostCounts(counts[..last], prior[..last]);
      assert Deltas(counts, prior)[..last] == Deltas(counts[..last], prior[..last]);
    }
  }

  lemma {:induction false} HistogramConserves(bounds: seq<real>, counts: seq<nat>, prior: seq<nat>, from: Float -> int, next: real -> real)
    requires |counts| == |prior|
    ensures bounds != [] && |counts| == |bounds| + 1 && Sum(counts) < WRAP ==>
      (Total(Recorded(bounds, Deltas(counts, prior), from, next, |counts|)) == Sum(counts) - Sum(prior)
       <==> Grows(prior, counts))
  {
    if bounds != [] && |counts| == |bounds| + 1 && Sum(counts) < WRAP {
      var deltas := Deltas(counts, prior);
      assert deltas[..|counts|] == deltas;
      DeltasAtMostCounts(counts, prior);
      DeltasAddUpIff(counts, prior);
      RecordedTotal(bounds, deltas, from, next, |counts|);
    }
  }
}
