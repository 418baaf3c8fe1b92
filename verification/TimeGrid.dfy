/** The time grid of a chart: how a filter picks its interval and rounds its bounds, and how the
    rows that the database groups by that interval are put on the grid. Times and durations are
    integer nanoseconds. */
module TimeGrid {
  import opened Basics

  const SECOND: int := 1_000_000_000
  const HOUR: int := 60 * MINUTE

  /** Division rounds toward zero. */
  function Quo(a: int, b: int): int
    requires b > 0
  {
    if a >= 0 then a / b else -(-a / b)
  }

  function Rem(a: int, b: int): int
    requires b > 0
  {
    a - b * Quo(a, b)
  }

  predicate WholeSeconds(d: int) {
    d % SECOND == 0
  }

  predicate Aligned(t: int, interval: int)
    requires interval > 0
  {
    t % interval == 0
  }

  // ---------------------------------------------------------------------------
  // Rounding
  // ---------------------------------------------------------------------------

  /** The next multiple of the duration in whole seconds; seconds are counted from the epoch. */
  function CeilTime(t: int, d: int): int
    requires d >= SECOND
  {
    var secs := Quo(d, SECOND);
    var r := Rem(t / SECOND, secs);
    if r == 0 then t else t + (secs - r) * SECOND
  }

  /** The least multiple that is not below. */
  ghost predicate IsCeil(t: int, interval: int, c: int)
    requires interval > 0
  {
    Aligned(c, interval) && t <= c && forall m :: Aligned(m, interval) && t <= m ==> c <= m
  }

  /** A multiple of a positive number lies at least that number away from zero. */
  lemma {:induction false} AtLeastOne(b: int, n: int)
    requires b > 0
    ensures n >= 1 ==> b * n >= b
    ensures n <= -1 ==> b * n <= -b
  {
    if n >= 1 {
      NotNegative(b, n - 1);
      assert b * n == b * (n - 1) + b;
    } else if n <= -1 {
      NotNegative(b, -1 - n);
      assert b * n == -(b * (-1 - n)) - b;
    }
  }

  lemma NotNegative(a: int, b: int)
    requires a >= 0 && b >= 0
    ensures a * b >= 0
  {
  }

  lemma DivModUnique(a: int, b: int, q: int, r: int)
    requires b > 0 && a == b * q + r && 0 <= r < b
    ensures a / b == q && a % b == r
  {
    AtLeastOne(b, q - a / b);
  }

  lemma MultiplesApart(a: int, b: int, interval: int)
    requires interval > 0 && Aligned(a, interval) && Aligned(b, interval) && a < b
    ensures a + interval <= b
  {
    AtLeastOne(interval, b / interval - a / interval);
  }

  lemma ScaledMod(a: int, b: int, k: int)
    requires b > 0 && k > 0
    ensures (a * k) % (b * k) == a % b * k && b * k > 0
  {
    var q, r := a / b, a % b;
    assert a * k == (b * k) * q + r * k;
    assert 0 <= r * k < b * k;
    DivModUnique(a * k, b * k, q, r * k);
  }

  /** For whole seconds, not before the epoch, rounding gives the least multiple not below. */
  lemma CeilTimeIsCeil(t: int, d: int)
    requires t >= 0 && d > 0 && WholeSeconds(t) && WholeSeconds(d)
    ensures IsCeil(t, d, CeilTime(t, d))
    ensures CeilTime(t, d) < t + d && CeilTime(t, d) >= 0 && WholeSeconds(CeilTime(t, d))
  {
    var secs, ticks := d / SECOND, t / SECOND;
    assert d == secs * SECOND && t == ticks * SECOND;
    ScaledMod(ticks, secs, SECOND);
    var r := ticks % secs;
    assert Rem(ticks, secs) == r;
    assert t % d == r * SECOND;
    var c := CeilTime(t, d);
    if r != 0 {
      assert c == t - r * SECOND + d;
      CeilStep(t, d, c);
    }
    forall m | Aligned(m, d) && t <= m ensures c <= m {
      if m < c { MultiplesApart(m, c, d); }
    }
  }

  lemma CeilStep(t: int, d: int, c: int)
    requires d > 0 && c == t - t % d + d
    ensures Aligned(c, d)
  {
    DivModUnique(c, d, t / d + 1, 0);
  }

  // ---------------------------------------------------------------------------
  // The interval
  // ---------------------------------------------------------------------------

  const INTERVALS: seq<int> := [MINUTE, 2 * MINUTE, 3 * MINUTE, 5 * MINUTE, 10 * MINUTE, 15 * MINUTE, 30 * MINUTE,
    HOUR, 2 * HOUR, 3 * HOUR, 4 * HOUR, 5 * HOUR, 6 * HOUR, 12 * HOUR]

  /** The least of the usual intervals that cuts a duration into at most `n` pieces; a day if none
      does. */
  predicate Suits(interval: int, d: int, n: int) {
    && (forall k :: 0 <= k < |INTERVALS| && INTERVALS[k] > 0 && Quo(d, INTERVALS[k]) <= n ==> interval <= INTERVALS[k])
    && (interval == 24 * HOUR || (interval in INTERVALS && interval > 0 && Quo(d, interval) <= n))
  }

  /** The interval that suits 120 pieces, or the least interval if that one is longer. */
  ghost predicate PickedFor(picked: int, d: int, minInterval: int) {
    exists p :: Suits(p, d, 120) && picked == if minInterval != 0 && p < minInterval then minInterval else p
  }

  /** Only one interval suits. */
  lemma SuitsOnce(d: int, n: int, p: int, q: int)
    requires Suits(p, d, n) && Suits(q, d, n)
    ensures p == q
  {
  }

  /** Each of them is a whole number of minutes and greater than the one before, at most twice as long;
      the longest is half a day. So a duration is never cut into fewer than about half of the pieces that
      would do. */
  lemma IntervalsAreUsual()
    ensures INTERVALS[0] == MINUTE && INTERVALS[|INTERVALS| - 1] == 12 * HOUR
    ensures forall k :: 0 <= k < |INTERVALS| ==> Aligned(INTERVALS[k], MINUTE)
    ensures forall k :: 0 < k < |INTERVALS| ==> INTERVALS[k - 1] < INTERVALS[k] <= 2 * INTERVALS[k - 1]
  {
    DivModUnique(MINUTE, MINUTE, 1, 0);
  }

  method PickInterval(gte: int, lt: int, n: int) returns (interval: int)
    requires gte <= lt
    ensures Suits(interval, lt - gte, n)
    ensures interval >= MINUTE && WholeSeconds(interval)
    ensures interval < 24 * HOUR ==> (lt - gte) / interval <= n
    ensures interval == 24 * HOUR || interval in INTERVALS
    ensures forall k :: 0 <= k < |INTERVALS| && INTERVALS[k] > 0 && (lt - gte) / INTERVALS[k] <= n ==> interval <= INTERVALS[k]
  {
    var d := lt - gte;
    for i := 0 to |INTERVALS|
      invariant forall k :: 0 <= k < i ==> d / INTERVALS[k] > n
    {
      if Quo(d, INTERVALS[i]) <= n { return INTERVALS[i]; }
    }
    interval := 24 * HOUR;
  }

  /** A filter of times; zero stands for an interval that is not set. */
  class TimeFilter {
    var timeGTE: int
    var timeLT: int
    const interval: int
    const minInterval: int

    constructor (timeGTE: int, timeLT: int, interval: int, minInterval: int)
      ensures this.timeGTE == timeGTE && this.timeLT == timeLT
      ensures this.interval == interval && this.minInterval == minInterval
    {
      this.timeGTE, this.timeLT, this.interval, this.minInterval := timeGTE, timeLT, interval, minInterval;
    }

    /** Whether the interval was set and gives fewer than a thousand points. */
    predicate Given()
      reads this
    {
      interval > 0 && Quo(timeLT - timeGTE, interval) < 1000
    }

    /** So it is if and only if the range is shorter than a thousand intervals. */
    lemma GivenIff()
      requires timeGTE <= timeLT
      ensures Given() <==> interval > 0 && timeLT - timeGTE < 1000 * interval
    {
      if interval > 0 { QuotientBelow(timeLT - timeGTE, interval, 1000); }
    }

    method Round(d: int)
      requires d >= SECOND
      modifies this
      ensures timeGTE == CeilTime(old(timeGTE), d) && timeLT == CeilTime(old(timeLT), d)
    {
      timeGTE, timeLT := CeilTime(timeGTE, d), CeilTime(timeLT, d);
    }

    /** The interval that suits the range, but not below the least one. */
    method AtLeastMinimum() returns (picked: int)
      requires 0 <= timeGTE <= timeLT
      ensures picked >= MINUTE && PickedFor(picked, timeLT - timeGTE, minInterval)
      ensures WholeSeconds(minInterval) ==> WholeSeconds(picked)
      ensures picked < 24 * HOUR ==> (timeLT - timeGTE) / picked <= 120
    {
      picked := PickInterval(timeGTE, timeLT, 120);
      if minInterval != 0 && picked < minInterval {
        FewerPieces(timeLT - timeGTE, picked, minInterval);
        picked := minInterval;
      }
    }

    /** On the path that rounds, with whole seconds: the bounds become the least multiples not
        below them, and below a day there are at most 121 points. A given interval is returned
        as it is, and the bounds are left alone. */
    method GroupingInterval() returns (picked: int)
      requires 0 <= timeGTE <= timeLT
      modifies this
      ensures old(Given()) ==> picked == interval && timeGTE == old(timeGTE) && timeLT == old(timeLT)
      ensures old(Given()) <==> interval > 0 && old(timeLT) - old(timeGTE) < 1000 * interval
      ensures !old(Given()) ==> picked >= MINUTE
      ensures !old(Given()) ==> PickedFor(picked, old(timeLT) - old(timeGTE), minInterval)
      ensures !old(Given()) && WholeSeconds(minInterval) && WholeSeconds(old(timeGTE)) && WholeSeconds(old(timeLT)) ==>
        && WholeSeconds(picked)
        && IsCeil(old(timeGTE), picked, timeGTE) && IsCeil(old(timeLT), picked, timeLT) && 0 <= timeGTE <= timeLT
        && (picked < 24 * HOUR ==> NumItem(timeGTE, timeLT, picked) <= 121)
    {
      GivenIff();
      if interval > 0 {
        var numPoint := Quo(timeLT - timeGTE, interval);
        if numPoint < 1000 { return interval; }
      }
      picked := AtLeastMinimum();
      if WholeSeconds(picked) && WholeSeconds(timeGTE) && WholeSeconds(timeLT) {
        CeilTimeIsCeil(timeGTE, picked);
        CeilTimeIsCeil(timeLT, picked);
        RoundedPoints(timeGTE, timeLT, CeilTime(timeGTE, picked), CeilTime(timeLT, picked), picked, 120);
      }
      Round(picked);
    }
  }

  lemma QuotientBelow(d: int, b: int, n: int)
    requires d >= 0 && b > 0
    ensures Quo(d, b) < n <==> d < n * b
  {
    var q := d / b;
    assert d == b * q + d % b;
    if q < n {
      NotNegative(b, n - 1 - q);
    } else {
      NotNegative(b, q - n);
    }
  }

  lemma QuotientAtMost(d: int, b: int, q: int)
    requires b > 0 && d < b * (q + 1)
    ensures d / b <= q
  {
    if d / b > q { NotNegative(b, d / b - (q + 1)); }
  }

  lemma FewerPieces(d: int, small: int, large: int)
    requires d >= 0 && 0 < small < large
    ensures d / large <= d / small
  {
    var q := d / small;
    NotNegative(large - small, q + 1);
    assert large * (q + 1) == small * (q + 1) + (large - small) * (q + 1);
    assert small * (q + 1) == small * q + small;
    QuotientAtMost(d, large, q);
  }

  /** Rounding both bounds up adds at most one piece. */
  lemma RoundedPoints(gte: int, lt: int, from: int, to: int, interval: int, n: int)
    requires interval > 0 && 0 <= gte <= lt && gte <= from && lt <= to < lt + interval
    requires IsCeil(gte, interval, from) && Aligned(to, interval)
    ensures from <= to
    ensures (lt - gte) / interval <= n ==> NumItem(from, to, interval) <= n + 1
  {
    assert from <= to;
    var m := (lt - gte) / interval;
    assert interval * (m + 2) == interval * m + 2 * interval;
    QuotientAtMost(to - from, interval, m + 1);
  }

  lemma AlignedDifference(a: int, b: int, interval: int)
    requires interval > 0 && Aligned(a, interval) && Aligned(b, interval)
    ensures Aligned(b - a, interval) && b - a == interval * (b / interval - a / interval)
  {
    DivModUnique(b - a, interval, b / interval - a / interval, 0);
  }

  // ---------------------------------------------------------------------------
  // The grid
  // ---------------------------------------------------------------------------

  function NumItem(gte: int, lt: int, interval: int): int
    requires interval > 0
  {
    Quo(lt - gte, interval)
  }

  /** The bucket of the database that a time falls into. */
  function BucketOf(t: int, interval: int): int
    requires interval > 0
  {
    t - t % interval
  }

  /** Where the value of a bucket goes. */
  function IndexOf(bucket: int, gte: int, interval: int): int
    requires interval > 0
  {
    Quo(bucket - gte, interval)
  }

  /** The times that are shown: those of the grid, unless there are as many rows as places. */
  function FilledTimes(timeCol: seq<int>, gte: int, lt: int, interval: int): seq<int>
    requires interval > 0 && gte <= lt
  {
    if |timeCol| == NumItem(gte, lt, interval) then timeCol
    else seq(NumItem(gte, lt, interval), i => gte + i * interval)
  }

  /** The times of the grid. */
  method FillTime(timeCol: seq<int>, gte: int, lt: int, interval: int) returns (r: seq<int>)
    requires interval > 0 && gte <= lt
    ensures r == FilledTimes(timeCol, gte, lt, interval)
    ensures |r| == NumItem(gte, lt, interval)
    ensures |timeCol| == NumItem(gte, lt, interval) ==> r == timeCol
    ensures |timeCol| != NumItem(gte, lt, interval) ==> forall i :: 0 <= i < |r| ==> r[i] == gte + i * interval
  {
    var numItem := Quo(lt - gte, interval);
    if |timeCol| == numItem { return timeCol; }
    var filled := new int[numItem];
    for i := 0 to numItem
      invariant forall k :: 0 <= k < i ==> filled[k] == gte + k * interval
    {
      filled[i] := gte + i * interval;
    }
    r := filled[..];
  }

  /** What ends up at a place of the grid: the last value whose bucket goes there. */
  function SlotOf<T>(values: seq<T>, timeCol: seq<int>, value: T, gte: int, interval: int, k: int): T
    requires interval > 0 && |values| == |timeCol|
  {
    if values == [] then value
    else
      var last := |values| - 1;
      if IndexOf(timeCol[last], gte, interval) == k then values[last]
      else SlotOf(values[..last], timeCol[..last], value, gte, interval, k)
  }

  /** Every bucket goes to a place of the grid. */
  predicate AllFit(timeCol: seq<int>, gte: int, lt: int, interval: int)
    requires interval > 0
  {
    forall i :: 0 <= i < |timeCol| ==> 0 <= IndexOf(timeCol[i], gte, interval) < NumItem(gte, lt, interval)
  }

  /** When the columns are put on the grid: there are more or fewer rows than places, and every
      row has its place. Otherwise they are returned as they are. */
  predicate Regrids(timeCol: seq<int>, gte: int, lt: int, interval: int)
    requires interval > 0
  {
    |timeCol| != NumItem(gte, lt, interval) && AllFit(timeCol, gte, lt, interval)
  }

  /** The column that is shown. */
  function Filled<T>(values: seq<T>, timeCol: seq<int>, value: T, gte: int, lt: int, interval: int): seq<T>
    requires interval > 0 && gte <= lt
  {
    if |values| == |timeCol| && Regrids(timeCol, gte, lt, interval) then
      seq(NumItem(gte, lt, interval), k => SlotOf(values, timeCol, value, gte, interval, k))
    else values
  }

  lemma FitStep(timeCol: seq<int>, gte: int, lt: int, interval: int, i: nat)
    requires interval > 0 && i < |timeCol|
    ensures AllFit(timeCol[..i + 1], gte, lt, interval)
       <==> AllFit(timeCol[..i], gte, lt, interval) && 0 <= IndexOf(timeCol[i], gte, interval) < NumItem(gte, lt, interval)
    ensures AllFit(timeCol, gte, lt, interval) ==> 0 <= IndexOf(timeCol[i], gte, interval) < NumItem(gte, lt, interval)
  {
    var longer := timeCol[..i + 1];
    assert longer[i] == timeCol[i] && forall k :: 0 <= k < i ==> longer[k] == timeCol[..i][k];
  }

  lemma {:induction false} SlotStep<T>(values: seq<T>, timeCol: seq<int>, value: T, gte: int, interval: int, i: nat)
    requires interval > 0 && i < |values| == |timeCol|
    ensures forall k {:trigger SlotOf(values[..i + 1], timeCol[..i + 1], value, gte, interval, k)} ::
      SlotOf(values[..i + 1], timeCol[..i + 1], value, gte, interval, k)
      == if IndexOf(timeCol[i], gte, interval) == k then values[i] else SlotOf(values[..i], timeCol[..i], value, gte, interval, k)
  {
    assert values[..i + 1][..i] == values[..i] && timeCol[..i + 1][..i] == timeCol[..i];
  }

  method Fill<T(0)>(values: seq<T>, timeCol: seq<int>, value: T, gte: int, lt: int, interval: int) returns (r: seq<T>)
    requires interval > 0 && gte <= lt
    ensures r == Filled(values, timeCol, value, gte, lt, interval)
  {
    if |values| != |timeCol| { return values; }
    var numItem := Quo(lt - gte, interval);
    if |values| == numItem { return values; }
    var filled := new T[numItem];
    for i := 0 to numItem
      invariant forall k :: 0 <= k < i ==> filled[k] == value
    {
      filled[i] := value;
    }
    for i := 0 to |values|
      invariant AllFit(timeCol[..i], gte, lt, interval)
      invariant forall k :: 0 <= k < numItem ==> filled[k] == SlotOf(values[..i], timeCol[..i], value, gte, interval, k)
    {
      FitStep(timeCol, gte, lt, interval, i);
      SlotStep(values, timeCol, value, gte, interval, i);
      var index := Quo(timeCol[i] - gte, interval);
      if index < 0 || index >= numItem { return values; }
      filled[index] := values[i];
    }
    assert values[..|values|] == values && timeCol[..|values|] == timeCol;
    r := filled[..];
  }

  // ---------------------------------------------------------------------------
  // Agreement
  // ---------------------------------------------------------------------------

  /** The bucket of a time of the range has its place on the grid, at which the grid has the time
      of the bucket. */
  predicate Agrees(t: int, gte: int, lt: int, interval: int)
    requires interval > 0
  {
    var b := BucketOf(t, interval);
    0 <= IndexOf(b, gte, interval) < NumItem(gte, lt, interval) && gte + IndexOf(b, gte, interval) * interval == b
  }

  lemma BucketIsAligned(t: int, interval: int)
    requires interval > 0
    ensures Aligned(BucketOf(t, interval), interval) && BucketOf(t, interval) <= t < BucketOf(t, interval) + interval
  {
    DivModUnique(BucketOf(t, interval), interval, t / interval, 0);
  }

  /** An aligned time of an aligned range has its place. */
  lemma PlaceOfAligned(b: int, gte: int, lt: int, interval: int)
    requires interval > 0 && Aligned(gte, interval) && Aligned(lt, interval) && Aligned(b, interval) && gte <= b < lt
    ensures 0 <= IndexOf(b, gte, interval) < NumItem(gte, lt, interval)
    ensures gte + IndexOf(b, gte, interval) * interval == b
  {
    AlignedDifference(gte, b, interval);
    AlignedDifference(gte, lt, interval);
    var i, n := (b - gte) / interval, (lt - gte) / interval;
    if i >= n {
      NotNegative(interval, i - n);
    }
    if i < 0 { AtLeastOne(interval, i); }
  }

  /** Buckets and grid agree for every time of the range if and only if the range is empty or
      both bounds are multiples of the interval. */
  lemma GridAgreesIff(gte: int, lt: int, interval: int)
    requires interval > 0 && gte <= lt
    ensures (forall t :: gte <= t < lt ==> Agrees(t, gte, lt, interval))
       <==> gte == lt || (Aligned(gte, interval) && Aligned(lt, interval))
  {
    if Aligned(gte, interval) && Aligned(lt, interval) {
      forall t | gte <= t < lt ensures Agrees(t, gte, lt, interval) {
        BucketIsAligned(t, interval);
        if BucketOf(t, interval) < gte { MultiplesApart(BucketOf(t, interval), gte, interval); }
        PlaceOfAligned(BucketOf(t, interval), gte, lt, interval);
      }
    } else if gte < lt {
      if !Aligned(gte, interval) {
        FirstBucketDisagrees(gte, lt, interval);
      } else {
        LastBucketDisagrees(gte, lt, interval);
      }
    }
  }

  /** The bucket of a bound that is not aligned begins before it, and goes to the first place. */
  lemma FirstBucketDisagrees(gte: int, lt: int, interval: int)
    requires interval > 0 && gte < lt && !Aligned(gte, interval)
    ensures !Agrees(gte, gte, lt, interval) && IndexOf(BucketOf(gte, interval), gte, interval) == 0
  {
    DivModUnique(gte % interval, interval, 0, gte % interval);
  }

  lemma LastBucketDisagrees(gte: int, lt: int, interval: int)
    requires interval > 0 && gte < lt && Aligned(gte, interval) && !Aligned(lt, interval)
    ensures gte <= BucketOf(lt, interval) < lt && !Agrees(BucketOf(lt, interval), gte, lt, interval)
  {
    var last := BucketOf(lt, interval);
    BucketIsAligned(lt, interval);
    if last < gte { MultiplesApart(last, gte, interval); }
    BucketIsAligned(last, interval);
    assert BucketOf(last, interval) == last;
    AlignedDifference(gte, last, interval);
    var k := last / interval - gte / interval;
    DivModUnique(last - gte, interval, k, 0);
    DivModUnique(lt - gte, interval, k, lt % interval);
  }

  ghost predicate IsBucket(b: int, gte: int, lt: int, interval: int)
    requires interval > 0
  {
    exists t :: gte <= t < lt && BucketOf(t, interval) == b
  }

  /** The rows that the database returns: buckets of times of the range, in order. */
  ghost predicate Rows(timeCol: seq<int>, gte: int, lt: int, interval: int)
    requires interval > 0
  {
    && (forall i :: 0 <= i < |timeCol| ==> IsBucket(timeCol[i], gte, lt, interval))
    && (forall i, j :: 0 <= i < j < |timeCol| ==> timeCol[i] < timeCol[j])
  }

  lemma BucketBounds(b: int, gte: int, lt: int, interval: int)
    requires interval > 0 && IsBucket(b, gte, lt, interval)
    ensures Aligned(b, interval) && gte < b + interval && b < lt
    ensures Aligned(gte, interval) ==> gte <= b
  {
    var t :| gte <= t < lt && BucketOf(t, interval) == b;
    BucketIsAligned(t, interval);
    if Aligned(gte, interval) && b < gte { MultiplesApart(b, gte, interval); }
  }

  lemma FartherQuotient(x: int, y: int, b: int)
    requires b > 0 && x >= 0 && x + b <= y
    ensures x / b < y / b
  {
    if y / b <= x / b { NotNegative(b, x / b - y / b); }
  }

  /** Later rows have later places, except that a row from before the range and the next one may
      both go to the first place. */
  lemma PlacesInOrder(timeCol: seq<int>, gte: int, lt: int, interval: int, i: int, j: int)
    requires interval > 0 && Rows(timeCol, gte, lt, interval) && 0 <= i < j < |timeCol|
    ensures if timeCol[i] < gte && timeCol[j] < gte + interval
            then i == 0 && j == 1 && IndexOf(timeCol[i], gte, interval) == IndexOf(timeCol[j], gte, interval) == 0
            else IndexOf(timeCol[i], gte, interval) < IndexOf(timeCol[j], gte, interval)
  {
    NextRowIsApart(timeCol, gte, lt, interval, i, j);
    var x, y := timeCol[i] - gte, timeCol[j] - gte;
    if x >= 0 {
      FartherQuotient(x, y, interval);
    } else {
      DivModUnique(-x, interval, 0, -x);
      if y < interval {
        DivModUnique(y, interval, 0, y);
        if i > 0 { NextRowIsApart(timeCol, gte, lt, interval, i - 1, i); }
        if j > i + 1 {
          NextRowIsApart(timeCol, gte, lt, interval, i, i + 1);
          NextRowIsApart(timeCol, gte, lt, interval, i + 1, j);
        }
      } else {
        FartherQuotient(0, y, interval);
      }
    }
  }

  lemma NextRowIsApart(timeCol: seq<int>, gte: int, lt: int, interval: int, i: int, j: int)
    requires interval > 0 && Rows(timeCol, gte, lt, interval) && 0 <= i < j < |timeCol|
    ensures timeCol[i] + interval <= timeCol[j] && gte < timeCol[i] + interval
  {
    BucketBounds(timeCol[i], gte, lt, interval);
    BucketBounds(timeCol[j], gte, lt, interval);
    MultiplesApart(timeCol[i], timeCol[j], interval);
  }

  predicate LastAt(timeCol: seq<int>, gte: int, interval: int, i: int)
    requires interval > 0 && 0 <= i < |timeCol|
  {
    forall j :: i < j < |timeCol| ==> IndexOf(timeCol[j], gte, interval) != IndexOf(timeCol[i], gte, interval)
  }

  /** The last row that goes to a place is found there. */
  lemma {:induction false} SlotOfLast<T>(values: seq<T>, timeCol: seq<int>, value: T, gte: int, interval: int, i: int)
    requires interval > 0 && |values| == |timeCol| && 0 <= i < |timeCol| && LastAt(timeCol, gte, interval, i)
    ensures SlotOf(values, timeCol, value, gte, interval, IndexOf(timeCol[i], gte, interval)) == values[i]
  {
    var last := |values| - 1;
    if i < last {
      assert timeCol[..last][i] == timeCol[i] && values[..last][i] == values[i];
      SlotOfLast(values[..last], timeCol[..last], value, gte, interval, i);
    }
  }

  /** What is found at a place is the last row that goes there, or the default. */
  lemma {:induction false} SlotHolds<T>(values: seq<T>, timeCol: seq<int>, value: T, gte: int, interval: int, k: int)
    returns (i: int)
    requires interval > 0 && |values| == |timeCol|
    ensures -1 <= i < |values|
    ensures i == -1 ==> SlotOf(values, timeCol, value, gte, interval, k) == value
    ensures i >= 0 ==> IndexOf(timeCol[i], gte, interval) == k && LastAt(timeCol, gte, interval, i)
    ensures i >= 0 ==> SlotOf(values, timeCol, value, gte, interval, k) == values[i]
  {
    var last := |values| - 1;
    if values == [] || IndexOf(timeCol[last], gte, interval) == k {
      i := last;
    } else {
      i := SlotHolds(values[..last], timeCol[..last], value, gte, interval, k);
      if i >= 0 { assert LastAt(timeCol[..last], gte, interval, i); }
    }
  }

  /** On an aligned grid no value is lost: each is found at the place of its bucket, and the
      default everywhere else. */
  lemma {:induction false} FillLosesNothing<T>(values: seq<T>, timeCol: seq<int>, value: T, gte: int, lt: int, interval: int)
    requires interval > 0 && Aligned(gte, interval) && Aligned(lt, interval)
    requires |values| == |timeCol| && Rows(timeCol, gte, lt, interval)
    ensures AllFit(timeCol, gte, lt, interval)
    ensures forall i :: 0 <= i < |values| ==>
      SlotOf(values, timeCol, value, gte, interval, IndexOf(timeCol[i], gte, interval)) == values[i]
    ensures forall k :: (forall i :: 0 <= i < |timeCol| ==> IndexOf(timeCol[i], gte, interval) != k) ==>
      SlotOf(values, timeCol, value, gte, interval, k) == value
  {
    forall i | 0 <= i < |values|
      ensures 0 <= IndexOf(timeCol[i], gte, interval) < NumItem(gte, lt, interval)
      ensures SlotOf(values, timeCol, value, gte, interval, IndexOf(timeCol[i], gte, interval)) == values[i]
    {
      BucketBounds(timeCol[i], gte, lt, interval);
      PlaceOfAligned(timeCol[i], gte, lt, interval);
      forall j | i < j < |timeCol| ensures IndexOf(timeCol[j], gte, interval) != IndexOf(timeCol[i], gte, interval) {
        PlacesInOrder(timeCol, gte, lt, interval, i, j);
      }
      SlotOfLast(values, timeCol, value, gte, interval, i);
    }
    forall k ensures (forall i :: 0 <= i < |timeCol| ==> IndexOf(timeCol[i], gte, interval) != k) ==>
      SlotOf(values, timeCol, value, gte, interval, k) == value
    {
      var i := SlotHolds(values, timeCol, value, gte, interval, k);
    }
  }

  lemma AtLeastAsFar(timeCol: seq<int>, gte: int, lt: int, interval: int, i: int)
    requires interval > 0 && Aligned(gte, interval) && Aligned(lt, interval) && Rows(timeCol, gte, lt, interval)
    requires 0 <= i < |timeCol|
    ensures IndexOf(timeCol[i], gte, interval) >= i
    ensures IndexOf(timeCol[i], gte, interval) <= NumItem(gte, lt, interval) - (|timeCol| - i)
  {
    var places := PlacesOf(timeCol, gte, interval);
    forall a, b | 0 <= a < b < |places| ensures places[a] < places[b] {
      BucketBounds(timeCol[a], gte, lt, interval);
      PlacesInOrder(timeCol, gte, lt, interval, a, b);
    }
    Ascends(places, 0, i);
    Ascends(places, i, |places| - 1);
    BucketBounds(timeCol[0], gte, lt, interval);
    BucketBounds(timeCol[|timeCol| - 1], gte, lt, interval);
    PlaceOfAligned(timeCol[0], gte, lt, interval);
    PlaceOfAligned(timeCol[|timeCol| - 1], gte, lt, interval);
  }

  function PlacesOf(timeCol: seq<int>, gte: int, interval: int): (places: seq<int>)
    requires interval > 0
    ensures |places| == |timeCol| && forall i :: 0 <= i < |places| ==> places[i] == IndexOf(timeCol[i], gte, interval)
  {
    if timeCol == [] then [] else [IndexOf(timeCol[0], gte, interval)] + PlacesOf(timeCol[1..], gte, interval)
  }

  lemma {:induction false} Ascends(places: seq<int>, i: int, j: int)
    requires 0 <= i <= j < |places| && forall a, b :: 0 <= a < b < |places| ==> places[a] < places[b]
    ensures places[j] - places[i] >= j - i
    decreases j - i
  {
    if i < j { Ascends(places, i, j - 1); }
  }

  /** The shortcut for as many rows as places agrees with the slow path: every row is at its own
      place already, and so is its time. */
  lemma {:induction false} ShortcutAgrees<T>(values: seq<T>, timeCol: seq<int>, value: T, gte: int, lt: int, interval: int, k: int)
    requires interval > 0 && Aligned(gte, interval) && Aligned(lt, interval)
    requires |values| == |timeCol| == NumItem(gte, lt, interval) && Rows(timeCol, gte, lt, interval)
    requires 0 <= k < |values|
    ensures SlotOf(values, timeCol, value, gte, interval, k) == values[k]
    ensures timeCol[k] == gte + k * interval
  {
    ShortcutPlace(timeCol, gte, lt, interval, k);
    FillKeeps(values, timeCol, value, gte, lt, interval, k);
  }

  lemma ShortcutPlace(timeCol: seq<int>, gte: int, lt: int, interval: int, k: int)
    requires interval > 0 && Aligned(gte, interval) && Aligned(lt, interval)
    requires |timeCol| == NumItem(gte, lt, interval) && Rows(timeCol, gte, lt, interval) && 0 <= k < |timeCol|
    ensures IndexOf(timeCol[k], gte, interval) == k && timeCol[k] == gte + k * interval
  {
    AtLeastAsFar(timeCol, gte, lt, interval, k);
    BucketBounds(timeCol[k], gte, lt, interval);
    PlaceOfAligned(timeCol[k], gte, lt, interval);
  }

  lemma {:induction false} FillKeeps<T>(values: seq<T>, timeCol: seq<int>, value: T, gte: int, lt: int, interval: int, i: int)
    requires interval > 0 && Aligned(gte, interval) && Aligned(lt, interval)
    requires |values| == |timeCol| && Rows(timeCol, gte, lt, interval) && 0 <= i < |values|
    ensures SlotOf(values, timeCol, value, gte, interval, IndexOf(timeCol[i], gte, interval)) == values[i]
  {
    FillLosesNothing(values, timeCol, value, gte, lt, interval);
  }

  /** When the first two rows go to one place of the grid. */
  predicate Overwrites(timeCol: seq<int>, gte: int, lt: int, interval: int)
    requires interval > 0
  {
    Regrids(timeCol, gte, lt, interval) && |timeCol| >= 2 && timeCol[0] < gte && timeCol[1] < gte + interval
  }

  predicate Distinct<T(==)>(values: seq<T>) {
    forall i, j :: 0 <= i < j < |values| ==> values[i] != values[j]
  }

  /** For any bounds: of the rows of the database the column that is shown has every value, except
      for the first one if the first two rows go to one place. */
  lemma ValueKeptIff<T>(values: seq<T>, timeCol: seq<int>, value: T, gte: int, lt: int, interval: int, i: int)
    requires interval > 0 && gte <= lt && |values| == |timeCol| && Rows(timeCol, gte, lt, interval)
    requires Distinct(values) && value !in values && 0 <= i < |values|
    ensures values[i] in Filled(values, timeCol, value, gte, lt, interval)
       <==> !(i == 0 && Overwrites(timeCol, gte, lt, interval))
  {
    if Regrids(timeCol, gte, lt, interval) {
      var r := Filled(values, timeCol, value, gte, lt, interval);
      if i == 0 && Overwrites(timeCol, gte, lt, interval) {
        PlacesInOrder(timeCol, gte, lt, interval, 0, 1);
        forall k | 0 <= k < |r| ensures r[k] != values[0] {
          var j := SlotHolds(values, timeCol, value, gte, interval, k);
        }
      } else {
        forall j | i < j < |timeCol| ensures IndexOf(timeCol[j], gte, interval) != IndexOf(timeCol[i], gte, interval) {
          PlacesInOrder(timeCol, gte, lt, interval, i, j);
        }
        SlotOfLast(values, timeCol, value, gte, interval, i);
        assert r[IndexOf(timeCol[i], gte, interval)] == values[i];
      }
    }
  }

  /** So a value is lost if and only if this happens. */
  lemma ValueLostIff<T>(values: seq<T>, timeCol: seq<int>, value: T, gte: int, lt: int, interval: int)
    requires interval > 0 && gte <= lt && |values| == |timeCol| && Rows(timeCol, gte, lt, interval)
    requires Distinct(values) && value !in values
    ensures (exists i :: 0 <= i < |values| && values[i] !in Filled(values, timeCol, value, gte, lt, interval))
       <==> Overwrites(timeCol, gte, lt, interval)
  {
    forall i | 0 <= i < |values|
      ensures values[i] in Filled(values, timeCol, value, gte, lt, interval)
         <==> !(i == 0 && Overwrites(timeCol, gte, lt, interval))
    {
      ValueKeptIff(values, timeCol, value, gte, lt, interval, i);
    }
    if Overwrites(timeCol, gte, lt, interval) { assert values[0] in values; }
  }

  /** Somewhere the column that is shown has the value, next to its own time. */
  predicate AtOwnTime<T(==)>(values: seq<T>, timeCol: seq<int>, filled: seq<T>, times: seq<int>, i: int)
    requires |filled| == |times| && 0 <= i < |values| == |timeCol|
  {
    exists k :: 0 <= k < |filled| && filled[k] == values[i] && times[k] == timeCol[i]
  }

  /** The two columns that are shown match: they are equally long, and each value stands at its own
      time. */
  ghost predicate ColumnsMatch<T>(values: seq<T>, timeCol: seq<int>, value: T, gte: int, lt: int, interval: int)
    requires interval > 0 && gte <= lt && |values| == |timeCol|
  {
    var filled, times := Filled(values, timeCol, value, gte, lt, interval), FilledTimes(timeCol, gte, lt, interval);
    && |filled| == |times|
    && forall i :: 0 <= i < |values| ==> AtOwnTime(values, timeCol, filled, times, i)
  }

  lemma GridTimesAligned(gte: int, k: int, b: int, interval: int)
    requires interval > 0 && Aligned(b, interval) && gte + k * interval == b
    ensures Aligned(gte, interval)
  {
    assert gte == interval * (b / interval - k) + 0;
    DivModUnique(gte, interval, b / interval - k, 0);
  }

  lemma FitsAtOwnTime<T>(values: seq<T>, timeCol: seq<int>, value: T, gte: int, lt: int, interval: int, i: int)
    requires interval > 0 && gte <= lt && |values| == |timeCol| && Rows(timeCol, gte, lt, interval)
    requires Regrids(timeCol, gte, lt, interval) && Aligned(gte, interval) && 0 <= i < |values|
    ensures AtOwnTime(values, timeCol, Filled(values, timeCol, value, gte, lt, interval), FilledTimes(timeCol, gte, lt, interval), i)
  {
    BucketBounds(timeCol[i], gte, lt, interval);
    AlignedDifference(gte, timeCol[i], interval);
    var k := IndexOf(timeCol[i], gte, interval);
    DivModUnique(timeCol[i] - gte, interval, timeCol[i] / interval - gte / interval, 0);
    assert gte + k * interval == timeCol[i];
    forall j | i < j < |timeCol| ensures IndexOf(timeCol[j], gte, interval) != k {
      BucketBounds(timeCol[0], gte, lt, interval);
      if i > 0 { NextRowIsApart(timeCol, gte, lt, interval, 0, i); }
      PlacesInOrder(timeCol, gte, lt, interval, i, j);
    }
    SlotOfLast(values, timeCol, value, gte, interval, i);
    var filled, times := Filled(values, timeCol, value, gte, lt, interval), FilledTimes(timeCol, gte, lt, interval);
    assert filled[k] == values[i] && times[k] == timeCol[i];
  }

  /** For any bounds, and the rows of the database: the columns match if and only if there are as
      many rows as places, or all rows fit and the grid begins at a multiple of the interval. */
  lemma ColumnsMatchIff<T>(values: seq<T>, timeCol: seq<int>, value: T, gte: int, lt: int, interval: int)
    requires interval > 0 && gte <= lt && |values| == |timeCol| && Rows(timeCol, gte, lt, interval)
    ensures ColumnsMatch(values, timeCol, value, gte, lt, interval)
       <==> || |timeCol| == NumItem(gte, lt, interval)
            || (AllFit(timeCol, gte, lt, interval) && (timeCol == [] || Aligned(gte, interval)))
  {
    var filled, times := Filled(values, timeCol, value, gte, lt, interval), FilledTimes(timeCol, gte, lt, interval);
    if |timeCol| == NumItem(gte, lt, interval) {
      forall i | 0 <= i < |values| ensures AtOwnTime(values, timeCol, filled, times, i) {
        assert filled[i] == values[i] && times[i] == timeCol[i];
      }
    } else if AllFit(timeCol, gte, lt, interval) {
      if Aligned(gte, interval) {
        forall i | 0 <= i < |values| ensures AtOwnTime(values, timeCol, filled, times, i) {
          FitsAtOwnTime(values, timeCol, value, gte, lt, interval, i);
        }
      } else if timeCol != [] {
        BucketBounds(timeCol[0], gte, lt, interval);
        forall k | 0 <= k < |times| ensures times[k] != timeCol[0] {
          if times[k] == timeCol[0] { GridTimesAligned(gte, k, timeCol[0], interval); }
        }
        assert !AtOwnTime(values, timeCol, filled, times, 0);
      }
    }
  }

  /** Two rows on a grid with one place, which begins with the first one: the second row does not
      fit, so that both values are shown, and one time. */
  lemma SecondRowUnplaced<T>(first: T, second: T, value: T, gte: int, lt: int, interval: int)
    requires interval > 0 && Aligned(gte, interval) && NumItem(gte, lt, interval) == 1 && gte + interval < lt
    ensures var timeCol := [gte, gte + interval];
      && Rows(timeCol, gte, lt, interval)
      && Filled([first, second], timeCol, value, gte, lt, interval) == [first, second]
      && FilledTimes(timeCol, gte, lt, interval) == [gte]
  {
    var timeCol := [gte, gte + interval];
    DivModUnique(gte + interval, interval, gte / interval + 1, 0);
    assert BucketOf(gte, interval) == gte && BucketOf(gte + interval, interval) == gte + interval;
    assert IndexOf(timeCol[1], gte, interval) == 1 by { DivModUnique(interval, interval, 1, 0); }
    assert !AllFit(timeCol, gte, lt, interval);
  }

  /** So it is with an interval of a minute, of a minute and a half. */
  lemma ColumnsOfDifferentLengths()
    ensures Rows([0, MINUTE], 0, 90 * SECOND, MINUTE)
    ensures Filled([7, 8], [0, MINUTE], 0, 0, 90 * SECOND, MINUTE) == [7, 8]
    ensures FilledTimes([0, MINUTE], 0, 90 * SECOND, MINUTE) == [0]
  {
    DivModUnique(90 * SECOND, MINUTE, 1, 30 * SECOND);
    DivModUnique(0, MINUTE, 0, 0);
    SecondRowUnplaced(7, 8, 0, 0, 90 * SECOND, MINUTE);
  }

  /** Two rows, the first of which begins before the range, on any grid of one place or more than
      two: the second value takes the place of the first one. */
  lemma SecondTakesPlace<T>(first: T, second: T, value: T, gte: int, lt: int, interval: int)
    requires interval > 0 && gte <= lt && BucketOf(gte, interval) < gte && BucketOf(gte, interval) + interval < lt
    requires NumItem(gte, lt, interval) > 0 && NumItem(gte, lt, interval) != 2
    ensures var b := BucketOf(gte, interval);
      var r := Filled([first, second], [b, b + interval], value, gte, lt, interval);
      && Rows([b, b + interval], gte, lt, interval)
      && |r| == NumItem(gte, lt, interval) && r[0] == second && forall k :: 0 < k < |r| ==> r[k] == value
  {
    var b := BucketOf(gte, interval);
    var values, timeCol := [first, second], [b, b + interval];
    BucketIsAligned(gte, interval);
    DivModUnique(b + interval, interval, gte / interval + 1, 0);
    assert BucketOf(b + interval, interval) == b + interval;
    PlacesInOrder(timeCol, gte, lt, interval, 0, 1);
    assert AllFit(timeCol, gte, lt, interval);
    SlotOfLast(values, timeCol, value, gte, interval, 1);
    forall k | 0 < k < NumItem(gte, lt, interval) ensures SlotOf(values, timeCol, value, gte, interval, k) == value {
      var i := SlotHolds(values, timeCol, value, gte, interval, k);
    }
  }

  /** It does happen on the path that does not round: with an interval of a minute, from half a
      minute after the epoch on, the value of the first minute is lost. */
  lemma UnalignedLosesFirst()
    ensures Rows([0, MINUTE], 30 * SECOND, 220 * SECOND, MINUTE)
    ensures Filled([7, 8], [0, MINUTE], 0, 30 * SECOND, 220 * SECOND, MINUTE) == [8, 0, 0]
  {
    var gte, lt := 30 * SECOND, 220 * SECOND;
    DivModUnique(gte, MINUTE, 0, gte);
    DivModUnique(lt - gte, MINUTE, 3, 10 * SECOND);
    SecondTakesPlace(7, 8, 0, gte, lt, MINUTE);
  }
}
