/** The check of a metric against its bounds: does it fire over the last points? Floating-point
    numbers are reals or NaN. */
module MetricCheck {
  import opened Basics

  datatype NullFloat = Null | Valid(value: real)

  datatype Bounds = Bounds(min: NullFloat, max: NullFloat) {
    /** On which side of the bounds a value lies; a comparison with NaN is false. */
    function IsOutlier(x: Float): (side: int)
      ensures side == 0 <==> Inside(x)
      ensures side < 0 ==> side == -1 && min.Valid? && FloatLess(x, Num(min.value))
      ensures side > 0 ==> side == 1 && max.Valid? && FloatLess(Num(max.value), x)
      ensures min.Valid? && FloatLess(x, Num(min.value)) ==> side == -1
    {
      if min.Valid? && FloatLess(x, Num(min.value)) then -1
      else if max.Valid? && FloatLess(Num(max.value), x) then 1
      else 0
    }

    predicate Inside(x: Float) {
      (min.Valid? ==> !FloatLess(x, Num(min.value))) && (max.Valid? ==> !FloatLess(Num(max.value), x))
    }
  }

  datatype CheckResult = CheckResult(values: seq<Float>, firing: int, firingFor: nat)

  /** A hole counts as zero. */
  function Filled(x: Float): Float {
    if x.NaN? then Num(0.0) else x
  }

  function FilledAll(values: seq<Float>): (filled: seq<Float>)
    ensures |filled| == |values| && forall i :: 0 <= i < |values| ==> filled[i] == Filled(values[i])
  {
    if values == [] then [] else FilledAll(values[..|values| - 1]) + [Filled(values[|values| - 1])]
  }

  lemma OutlierStep(values: seq<Float>, bounds: Bounds, from: nat)
    requires from <= |values|
    ensures from == |values| ==> OutlierSet(values, bounds, from) == {}
    ensures from < |values| ==>
      |OutlierSet(values, bounds, from)| == (if bounds.Inside(values[from]) then 0 else 1) + |OutlierSet(values, bounds, from + 1)|
  {
    if from < |values| {
      var later := OutlierSet(values, bounds, from + 1);
      assert OutlierSet(values, bounds, from) == if bounds.Inside(values[from]) then later else later + {from};
    }
  }

  /** The positions from `from` on of the values outside of the bounds. */
  ghost function OutlierSet(values: seq<Float>, bounds: Bounds, from: nat): set<nat> {
    set i: nat | from <= i < |values| && !bounds.Inside(values[i])
  }

  /** The number of values outside of the bounds, from position `from` on. */
  function Outliers(values: seq<Float>, bounds: Bounds, from: nat): (n: nat)
    requires from <= |values|
    ensures n <= |values| - from
    ensures n == |OutlierSet(values, bounds, from)|
    ensures n == 0 <==> forall i :: from <= i < |values| ==> bounds.Inside(values[i])
    ensures n == |values| - from <==> forall i :: from <= i < |values| ==> !bounds.Inside(values[i])
    decreases |values| - from
  {
    OutlierStep(values, bounds, from);
    if from == |values| then 0
    else (if bounds.IsOutlier(values[from]) != 0 then 1 else 0) + Outliers(values, bounds, from + 1)
  }

  /** A value is outside if it is less than the lower bound or greater than the upper one, as far as they
      are given; a hole counts as zero. */
  predicate Outside(x: Float, bounds: Bounds) {
    var seen := if x.NaN? then Num(0.0) else x;
    || (bounds.min.Valid? && FloatLess(seen, Num(bounds.min.value)))
    || (bounds.max.Valid? && FloatLess(Num(bounds.max.value), seen))
  }

  lemma AllOutIff(values: seq<Float>, bounds: Bounds, n: nat)
    requires n <= |values|
    ensures AllOut(values, bounds, n) <==> forall i :: |values| - n <= i < |values| ==> Outside(values[i], bounds)
    ensures NoneOut(values, bounds, n) <==> forall i :: |values| - n <= i < |values| ==> !Outside(values[i], bounds)
  {
  }

  /** The last `n` values as the check sees them. */
  function LastFilled(values: seq<Float>, n: nat): (last: seq<Float>)
    requires n <= |values|
    ensures |last| == n && forall i :: 0 <= i < n ==> last[i] == Filled(values[|values| - n + i])
  {
    FilledAll(values)[|values| - n..]
  }

  /** Every one of the last `n` values lies outside of the bounds. */
  predicate AllOut(values: seq<Float>, bounds: Bounds, n: nat) {
    n <= |values| && forall i :: |values| - n <= i < |values| ==> !bounds.Inside(Filled(values[i]))
  }

  /** None of the last `n` values does. */
  predicate NoneOut(values: seq<Float>, bounds: Bounds, n: nat) {
    n <= |values| && forall i :: |values| - n <= i < |values| ==> bounds.Inside(Filled(values[i]))
  }

  lemma {:induction false} LastSeen(values: seq<Float>, last: seq<Float>, bounds: Bounds)
    requires |last| <= |values| && last == LastFilled(values, |last|)
    ensures Outliers(last, bounds, 0) == 0 <==> NoneOut(values, bounds, |last|)
    ensures Outliers(last, bounds, 0) == |last| <==> AllOut(values, bounds, |last|)
    ensures last != [] && AllOut(values, bounds, |last|) ==> bounds.IsOutlier(last[0]) != 0
  {
    var skipped := |values| - |last|;
    forall i | skipped <= i < |values| ensures Filled(values[i]) == last[i - skipped] {}
    if last != [] && AllOut(values, bounds, |last|) { assert !bounds.Inside(Filled(values[skipped])); }
  }

  class Checker {
    const duration: nat
    const bounds: Bounds

    constructor (duration: nat, bounds: Bounds)
      requires duration > 0
      ensures this.duration == duration && this.bounds == bounds
    {
      this.duration, this.bounds := duration, bounds;
    }

    /** Checks the values from position `from` on, after filling their holes in place. The
        metric fires if and only if each of the last values, as many as the duration says, lies
        outside of the bounds; with fewer values nothing is looked at or filled. */
    method Check(input: array<Float>, from: nat) returns (check: CheckResult)
      requires duration > 0 && from <= input.Length
      modifies input
      ensures input[..from] == old(input[..from])
      ensures input.Length - from < duration ==>
        input[..] == old(input[..]) && check == CheckResult([], 0, 0)
      ensures input.Length - from >= duration ==>
        input[from..] == FilledAll(old(input[from..])) && check.values == LastFilled(old(input[from..]), duration)
      ensures check.firing != 0 <==> AllOut(old(input[from..]), bounds, duration)
      ensures check.firing != 0 ==> check.firingFor == duration && check.firing == bounds.IsOutlier(check.values[0])
      ensures input.Length - from >= duration ==>
        && check.firingFor == |OutlierSet(check.values, bounds, 0)|
        && (check.firingFor == 0 <==> NoneOut(old(input[from..]), bounds, duration))
        && (check.firingFor == duration <==> AllOut(old(input[from..]), bounds, duration))
    {
      check := CheckResult([], 0, 0);
      if input.Length - from < duration { return; }
      ghost var before := input[from..];
      FillHoles(input, from);
      var values := input[input.Length - duration..];
      assert values == LastFilled(before, duration) by { assert values == input[from..][|before| - duration..]; }
      LastSeen(before, values, bounds);
      var firingFor := CountOutliers(values, bounds);
      check := CheckResult(values, if firingFor == duration then bounds.IsOutlier(values[0]) else 0, firingFor);
    }
  }

  method FillHoles(input: array<Float>, from: nat)
    requires from <= input.Length
    modifies input
    ensures input[..from] == old(input[..from]) && input[from..] == FilledAll(old(input[from..]))
    ensures forall k :: from <= k < input.Length ==> input[k] == if old(input[k]).NaN? then Num(0.0) else old(input[k])
  {
    for i := from to input.Length
      invariant forall k :: 0 <= k < from || i <= k < input.Length ==> input[k] == old(input[k])
      invariant forall k :: from <= k < i ==> input[k] == Filled(old(input[k]))
    {
      if input[i].NaN? {
        input[i] := Num(0.0);
      }
    }
  }

  method CountOutliers(values: seq<Float>, bounds: Bounds) returns (n: nat)
    ensures n == Outliers(values, bounds, 0)
  {
    n := 0;
    var i := |values|;
    while i > 0
      invariant 0 <= i <= |values| && n == Outliers(values, bounds, i)
    {
      i := i - 1;
      if bounds.IsOutlier(values[i]) != 0 {
        n := n + 1;
      }
    }
  }
}
