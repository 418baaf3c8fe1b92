/** The join of two sets of timeseries in the metrics query engine.

    Values live in arrays and the result slice is an array with spare capacity, because
    the engine keeps pointers into that array while it appends to it. */
module TimeseriesJoin {
  import opened Basics

  datatype KeyValue = KeyValue(key: string, value: string)

  type Attrs = seq<KeyValue>

  /** The fields that no operation of the join looks at or changes. */
  datatype Meta = Meta(metricName: string, nameTemplate: string, filters: seq<string>, annotations: seq<string>, times: seq<int>)

  /** A timeseries as the engine holds it: `value` is shared, not copied, with the struct. */
  datatype Timeseries = Timeseries(
    attrs: Attrs, unit: string, value: array<Float>, grouping: seq<string>, groupByAll: bool, meta: Meta)

  /** The same timeseries as a value. */
  datatype Series = Series(
    attrs: Attrs, unit: string, values: seq<Float>, grouping: seq<string>, groupByAll: bool, meta: Meta)

  type Op = (Float, Float) -> Float

  const UNIT_NONE := ""

  ghost function View(ts: Timeseries): Series
    reads ts.value
  {
    Series(ts.attrs, ts.unit, ts.value[..], ts.grouping, ts.groupByAll, ts.meta)
  }

  /** The timeseries `s` hold the values `series`. */
  ghost predicate Holds(s: seq<Timeseries>, series: seq<Series>)
    reads set ts | ts in s :: ts.value
  {
    |s| == |series| && forall k :: 0 <= k < |s| ==> View(s[k]) == series[k]
  }

  // ---------------------------------------------------------------------------
  // What the code computes
  // ---------------------------------------------------------------------------

  /** The operator applied point by point; the operands of a join have equal lengths. */
  function Points(a: seq<Float>, b: seq<Float>, op: Op): (r: seq<Float>)
    ensures |a| == |b| ==> |r| == |a| && forall k :: 0 <= k < |a| ==> r[k] == op(a[k], b[k])
  {
    if a == [] || b == [] then [] else [op(a[0], b[0])] + Points(a[1..], b[1..], op)
  }

  predicate IsPoints(r: seq<Float>, a: seq<Float>, b: seq<Float>, op: Op) {
    |r| == |a| == |b| && forall k :: 0 <= k < |r| ==> r[k] == op(a[k], b[k])
  }

  function Fill(n: nat, x: Float): (r: seq<Float>)
    ensures |r| == n
    ensures forall k :: 0 <= k < n ==> r[k] == x
  {
    if n == 0 then [] else Fill(n - 1, x) + [x]
  }

  /** `a` with each value replaced by the operator applied to it and the value of `b`. */
  function Combine(a: Series, b: Series, op: Op): (r: Series)
    ensures r.attrs == a.attrs && r.grouping == a.grouping && r.groupByAll == a.groupByAll && r.meta == a.meta
    ensures |a.values| == |b.values| ==> IsPoints(r.values, a.values, b.values, op)
  {
    a.(values := Points(a.values, b.values, op), unit := UNIT_NONE)
  }

  function Zeroed(s: Series, zero: Float): Series {
    s.(values := Fill(|s.values|, zero))
  }

  predicate SameLength(s: seq<Series>, n: nat) {
    forall k :: 0 <= k < |s| ==> |s[k].values| == n
  }

  /** Where the map built from the left operand points: the last series with the attributes. */
  function Index(s: seq<Series>): (m: map<Attrs, nat>)
    ensures forall a :: a in m ==> m[a] < |s| && s[m[a]].attrs == a
    ensures forall k :: 0 <= k < |s| ==> s[k].attrs in m
  {
    if s == [] then map[]
    else Index(s[..|s| - 1])[s[|s| - 1].attrs := |s| - 1]
  }

  /** None of the series with the attributes comes later. */
  lemma {:induction false} IndexIsLast(s: seq<Series>, k: nat)
    requires k < |s|
    ensures Index(s)[s[k].attrs] >= k
  {
    if k < |s| - 1 { IndexIsLast(s[..|s| - 1], k); }
  }

  /** One round of the join loop. `index` points into the first allocation of the result,
      which holds `capacity` series; once the result has outgrown it, updates through
      `index` are lost. */
  function JoinNext(joined: seq<Series>, capacity: nat, index: map<Attrs, nat>, ts2: Series,
                    op: Op, zero: Float): (r: seq<Series>)
    requires forall a :: a in index ==> index[a] < |joined|
    ensures |joined| <= |r|
  {
    if ts2.attrs !in index then joined + [Combine(Zeroed(ts2, zero), ts2, op)]
    else if |joined| <= capacity then joined[index[ts2.attrs] := Combine(joined[index[ts2.attrs]], ts2, op)]
    else joined
  }

  /** The join loop. */
  function JoinFrom(joined: seq<Series>, capacity: nat, index: map<Attrs, nat>, rhs: seq<Series>,
                    op: Op, zero: Float): seq<Series>
    requires forall a :: a in index ==> index[a] < |joined|
    decreases |rhs|
  {
    if rhs == [] then joined
    else JoinFrom(JoinNext(joined, capacity, index, rhs[0], op, zero), capacity, index, rhs[1..], op, zero)
  }

  function Max(a: nat, b: nat): nat {
    if a > b then a else b
  }

  /** The join of two non-empty operands. */
  function JoinAll(lhs: seq<Series>, rhs: seq<Series>, op: Op, zero: Float): seq<Series>
  {
    JoinFrom(lhs, Max(|lhs|, |rhs|), Index(lhs), rhs, op, zero)
  }

  /** `op(number, v)` for every point, as new series. */
  function NumLeft(number: Float, rhs: seq<Series>, op: Op): (s: seq<Series>)
    ensures |s| == |rhs|
  {
    seq(|rhs|, i requires 0 <= i < |rhs| =>
      var v := rhs[i].values;
      rhs[i].(values := Points(Fill(|v|, number), v, op)))
  }

  function NumRight(lhs: seq<Series>, number: Float, op: Op): (s: seq<Series>)
    ensures |s| == |lhs|
  {
    seq(|lhs|, i requires 0 <= i < |lhs| =>
      var v := lhs[i].values;
      lhs[i].(values := Points(v, Fill(|v|, number), op)))
  }

  // ---------------------------------------------------------------------------
  // The code
  // ---------------------------------------------------------------------------

  method NewTimeseriesFrom(ts: Timeseries, zero: Float) returns (r: Timeseries)
    ensures fresh(r.value) && r.value.Length == ts.value.Length
    ensures View(r) == Zeroed(View(ts), zero)
  {
    var value := new Float[ts.value.Length](_ => zero);
    r := ts.(value := value);
    assert value[..] == Fill(ts.value.Length, zero);
  }

  /** Go's `append` of one element: in place while there is room, else into a larger copy. */
  method Append(buf: array<Timeseries>, len: nat, ts: Timeseries) returns (r: array<Timeseries>)
    requires len <= buf.Length
    modifies buf
    ensures r.Length > len
    ensures r[..len + 1] == old(buf[..len]) + [ts]
    ensures if len < buf.Length then r == buf else fresh(r) && buf[..] == old(buf[..])
  {
    if len < buf.Length {
      buf[len] := ts;
      r := buf;
    } else {
      var grown := new Timeseries[2 * len + 1](_ => ts);
      for i := 0 to len
        invariant grown[..i] == buf[..i]
        invariant grown[len] == ts && buf[..] == old(buf[..])
      {
        grown[i] := buf[i];
      }
      r := grown;
    }
  }

  method MakeTimeseriesMap(s: seq<Timeseries>, ghost series: seq<Series>) returns (m: map<Attrs, nat>)
    requires Holds(s, series)
    ensures m == Index(series)
  {
    m := map[];
    for i := 0 to |s|
      invariant m == Index(series[..i])
    {
      m := m[s[i].attrs := i];
      assert series[..i + 1][..i] == series[..i];
      assert View(s[i]) == series[i];
    }
    assert series[..|s|] == series;
  }

  /** `ts1` with a new value array that holds the operator applied point by point. */
  method Pointwise(ts1: Timeseries, ts2: Timeseries, op: Op, zero: Float) returns (r: Timeseries)
    requires ts1.value.Length == ts2.value.Length
    ensures fresh(r.value) && r.value.Length == ts1.value.Length && View(r) == Combine(View(ts1), View(ts2), op)
  {
    var value := new Float[ts1.value.Length](_ => zero);
    for i := 0 to ts1.value.Length
      invariant forall k :: 0 <= k < i ==> value[k] == op(ts1.value[k], ts2.value[k])
    {
      value[i] := op(ts1.value[i], ts2.value[i]);
    }
    r := ts1.(value := value, unit := UNIT_NONE);
    assert value[..] == Combine(View(ts1), View(ts2), op).values;
  }

  method AppendSeries(buf: array<Timeseries>, len: nat, ts: Timeseries, ghost series: seq<Series>) returns (r: array<Timeseries>)
    requires len <= buf.Length && Holds(buf[..len], series)
    modifies buf
    ensures r.Length > len
    ensures Holds(r[..len + 1], series + [View(ts)])
    ensures r[..len] == old(buf[..len])
    ensures if len < buf.Length then r == buf else fresh(r) && buf[..] == old(buf[..])
  {
    ghost var was := buf[..len];
    HoldsOneMore(was, ts, series);
    r := Append(buf, len, ts);
    assert r[..len + 1] == was + [ts] && r[..len] == was;
  }

  lemma HoldsOneMore(s: seq<Timeseries>, ts: Timeseries, series: seq<Series>)
    requires Holds(s, series)
    ensures Holds(s + [ts], series + [View(ts)])
  {
  }

  /** The result slice of a join, and the first allocation of it, which the map points into. */
  class JoinedSlice {
    const first: array<Timeseries>
    const base: nat
    var buf: array<Timeseries>
    var len: nat

    ghost var series: seq<Series>  // the result so far

    ghost predicate Valid(n: nat)
      reads this, buf, first, set ts | ts in buf[..] + first[..] :: ts.value
    {
      && base <= first.Length && base <= len <= buf.Length
      && (if len <= first.Length then buf == first else buf != first)
      && Holds(buf[..len], series) && SameLength(series, n) && base <= |series|
      && forall k :: 0 <= k < base ==> first[k].value.Length == n
    }

    constructor (lhs: seq<Timeseries>, capacity: nat, ghost l: seq<Series>, ghost n: nat)
      requires 0 < |lhs| <= capacity && Holds(lhs, l) && SameLength(l, n)
      ensures Valid(n) && series == l && first.Length == capacity && base == |lhs|
      ensures fresh(buf) && fresh(first)
    {
      var a := new Timeseries[capacity](_ => lhs[0]);
      for i := 0 to |lhs|
        invariant a[..i] == lhs[..i]
      {
        a[i] := lhs[i];
      }
      first, buf, base, len := a, a, |lhs|, |lhs|;
      series := l;
      new;
      assert first[..len] == lhs;
    }

    /** Writes through a pointer of the map, into the first allocation: the result changes
        only while it has not outgrown that allocation. */
    method UpdateThroughMap(at: nat, ts2: Timeseries, op: Op, zero: Float, ghost n: nat)
      requires Valid(n) && at < base && ts2.value.Length == n
      modifies this`series, first
      ensures Valid(n)
      ensures series == if len <= first.Length then old(series[at := Combine(series[at], View(ts2), op)]) else old(series)
    {
      ghost var was := buf[..len];
      assert View(was[at]) == series[at];
      var updated := Pointwise(first[at], ts2, op, zero);
      first[at] := updated;
      if len <= first.Length {
        series := series[at := View(updated)];
        assert buf[..len] == was[at := updated];
      } else {
        assert buf[..len] == was;
      }
    }

    method Push(ts: Timeseries, ghost n: nat)
      requires Valid(n) && ts.value.Length == n
      modifies this`buf, this`len, this`series, buf
      ensures Valid(n) && len == old(len) + 1
      ensures series == old(series + [View(ts)])
      ensures buf == old(buf) || fresh(buf)
    {
      ghost var was, next := first[..base], series + [View(ts)];
      assert buf == first ==> buf[..len][..base] == was;
      var grown := AppendSeries(buf, len, ts, series);
      assert first[..base] == was by { assert grown == first ==> first[..base] == grown[..len][..base]; }
      buf, len, series := grown, len + 1, next;
      assert forall k :: 0 <= k < base ==> first[k] == was[k];
    }
  }

  lemma {:induction false} JoinFromStep(joined: seq<Series>, capacity: nat, index: map<Attrs, nat>, rhs: seq<Series>, i: nat,
                     op: Op, zero: Float)
    requires i < |rhs|
    requires forall a :: a in index ==> index[a] < |joined|
    ensures JoinFrom(joined, capacity, index, rhs[i..], op, zero)
         == JoinFrom(JoinNext(joined, capacity, index, rhs[i], op, zero), capacity, index, rhs[i + 1..], op, zero)
  {
    assert rhs[i..][0] == rhs[i] && rhs[i..][1..] == rhs[i + 1..];
  }

  /** One round of the join loop. */
  method JoinRound(slice: JoinedSlice, index: map<Attrs, nat>, ts2: Timeseries, op: Op, zero: Float,
                   ghost s2: Series, ghost n: nat)
    requires slice.Valid(n) && View(ts2) == s2 && |s2.values| == n
    requires forall a :: a in index ==> index[a] < slice.base
    modifies slice, slice.buf, slice.first
    ensures slice.Valid(n)
    ensures slice.series == JoinNext(old(slice.series), slice.first.Length, index, s2, op, zero)
    ensures slice.buf == old(slice.buf) || fresh(slice.buf)
  {
    if ts2.attrs in index {
      slice.UpdateThroughMap(index[ts2.attrs], ts2, op, zero, n);
    } else {
      var added := NewTimeseriesFrom(ts2, zero);
      added := Pointwise(added, ts2, op, zero);
      slice.Push(added, n);
    }
  }

  method JoinRounds(slice: JoinedSlice, index: map<Attrs, nat>, rhs: seq<Timeseries>, op: Op, zero: Float,
                    ghost r: seq<Series>, ghost n: nat)
    requires slice.Valid(n) && Holds(rhs, r) && SameLength(r, n)
    requires forall a :: a in index ==> index[a] < slice.base
    modifies slice, slice.buf, slice.first
    ensures slice.Valid(n)
    ensures slice.series == JoinFrom(old(slice.series), slice.first.Length, index, r, op, zero)
  {
    ghost var capacity := slice.first.Length;
    ghost var all := JoinFrom(slice.series, capacity, index, r, op, zero);
    assert r[0..] == r;
    for i := 0 to |rhs|
      invariant slice.Valid(n)
      invariant slice.buf == old(slice.buf) || fresh(slice.buf)
      invariant JoinFrom(slice.series, capacity, index, r[i..], op, zero) == all
    {
      assert View(rhs[i]) == old(View(rhs[i])) == r[i];
      JoinFromStep(slice.series, capacity, index, r, i, op, zero);
      JoinRound(slice, index, rhs[i], op, zero, r[i], n);
    }
  }

  /** The join of two non-empty operands. It has no modifies clause: nothing that the
      operands refer to is written. */
  method JoinTimeseries(lhs: seq<Timeseries>, rhs: seq<Timeseries>, op: Op, zero: Float,
                        ghost l: seq<Series>, ghost r: seq<Series>, ghost n: nat)
    returns (joined: seq<Timeseries>)
    requires lhs != [] && rhs != []
    requires Holds(lhs, l) && Holds(rhs, r) && SameLength(l, n) && SameLength(r, n)
    ensures Holds(joined, JoinAll(l, r, op, zero))
  {
    var slice := new JoinedSlice(lhs, Max(|lhs|, |rhs|), l, n);
    var index := MakeTimeseriesMap(lhs, l);
    JoinRounds(slice, index, rhs, op, zero, r, n);
    joined := slice.buf[..slice.len];
  }

  method MapLeft(number: Float, ts2: Timeseries, op: Op, zero: Float) returns (ts: Timeseries)
    ensures fresh(ts.value)
    ensures Holds([ts], NumLeft(number, [View(ts2)], op))
  {
    ts := NewTimeseriesFrom(ts2, zero);
    for k := 0 to ts2.value.Length
      invariant forall m :: 0 <= m < k ==> ts.value[m] == op(number, ts2.value[m])
    {
      ts.value[k] := op(number, ts2.value[k]);
    }
    assert ts.value[..] == NumLeft(number, [View(ts2)], op)[0].values;
  }

  lemma HoldsMore(s: seq<Timeseries>, series: seq<Series>, i: nat, ts: Timeseries)
    requires i < |series| && Holds(s, series[..i]) && View(ts) == series[i]
    ensures Holds(s + [ts], series[..i + 1])
  {
  }

  method EvalNumLeft(number: Float, rhs: seq<Timeseries>, op: Op, zero: Float, ghost r: seq<Series>)
    returns (joined: seq<Timeseries>)
    requires Holds(rhs, r)
    ensures Holds(joined, NumLeft(number, r, op))
  {
    joined := [];
    for i := 0 to |rhs|
      invariant Holds(joined, NumLeft(number, r, op)[..i])
    {
      var ts := MapLeft(number, rhs[i], op, zero);
      assert View([ts][0]) == NumLeft(number, [r[i]], op)[0] == NumLeft(number, r, op)[i];
      HoldsMore(joined, NumLeft(number, r, op), i, ts);
      joined := joined + [ts];
    }
  }

  method MapRight(ts1: Timeseries, number: Float, op: Op, zero: Float) returns (ts: Timeseries)
    ensures fresh(ts.value)
    ensures Holds([ts], NumRight([View(ts1)], number, op))
  {
    ts := NewTimeseriesFrom(ts1, zero);
    for k := 0 to ts1.value.Length
      invariant forall m :: 0 <= m < k ==> ts.value[m] == op(ts1.value[m], number)
    {
      ts.value[k] := op(ts1.value[k], number);
    }
    assert ts.value[..] == NumRight([View(ts1)], number, op)[0].values;
  }

  method EvalNumRight(lhs: seq<Timeseries>, number: Float, op: Op, zero: Float, ghost l: seq<Series>)
    returns (joined: seq<Timeseries>)
    requires Holds(lhs, l)
    ensures Holds(joined, NumRight(l, number, op))
  {
    joined := [];
    for i := 0 to |lhs|
      invariant Holds(joined, NumRight(l, number, op)[..i])
    {
      var ts := MapRight(lhs[i], number, op, zero);
      assert View([ts][0]) == NumRight([l[i]], number, op)[0] == NumRight(l, number, op)[i];
      HoldsMore(joined, NumRight(l, number, op), i, ts);
      joined := joined + [ts];
    }
  }

  datatype JoinError = DifferentGrouping | GroupByAll

  datatype Result<T> = Ok(value: T) | Failed(error: JoinError)

  predicate AnyGroupByAll(s: seq<Series>) {
    exists k :: 0 <= k < |s| && s[k].groupByAll
  }

  /** What a join returns for the operands `l` and `r`. */
  function JoinSpec(l: seq<Series>, r: seq<Series>, op: Op, zero: Float): Result<seq<Series>>
  {
    if l == [] && r == [] then Ok([])
    else if l == [] then Ok(NumLeft(zero, r, op))
    else if r == [] then Ok(NumRight(l, zero, op))
    else if l[0].grouping != r[0].grouping then Failed(DifferentGrouping)
    else if AnyGroupByAll(l) || AnyGroupByAll(r) then Failed(GroupByAll)
    else Ok(JoinAll(l, r, op, zero))
  }

  method HasGroupByAll(s: seq<Timeseries>, ghost series: seq<Series>) returns (found: bool)
    requires Holds(s, series)
    ensures found <==> AnyGroupByAll(series)
  {
    for i := 0 to |s|
      invariant forall k :: 0 <= k < i ==> !series[k].groupByAll
    {
      assert View(s[i]) == series[i];
      if s[i].groupByAll { return true; }
    }
    found := false;
  }

  /** Series that are like those of `from`, but for their values, each of which is `f` of the value there. */
  ghost predicate Mapped(s: seq<Timeseries>, from: seq<Series>, f: Float -> Float)
    reads set ts | ts in s :: ts.value
  {
    |s| == |from| && forall i :: 0 <= i < |s| ==> MappedOne(View(s[i]), from[i], f)
  }

  predicate MappedOne(a: Series, from: Series, f: Float -> Float) {
    && a == from.(values := a.values) && |a.values| == |from.values|
    && forall k :: 0 <= k < |a.values| ==> a.values[k] == f(from.values[k])
  }

  lemma NumLeftMaps(number: Float, r: seq<Series>, op: Op, i: nat)
    requires i < |r|
    ensures MappedOne(NumLeft(number, r, op)[i], r[i], v => op(number, v))
  {
  }

  lemma NumRightMaps(l: seq<Series>, number: Float, op: Op, i: nat)
    requires i < |l|
    ensures MappedOne(NumRight(l, number, op)[i], l[i], v => op(v, number))
  {
  }

  /** An empty operand counts as zero at every point of the other one, on its own side of the
      operator. Two operands with series are refused if the first series of each side were grouped
      differently, or else if any series was grouped by everything. */
  method Join(lhs: seq<Timeseries>, rhs: seq<Timeseries>, op: Op, zero: Float,
              ghost l: seq<Series>, ghost r: seq<Series>, ghost n: nat)
    returns (result: Result<seq<Timeseries>>)
    requires Holds(lhs, l) && Holds(rhs, r) && SameLength(l, n) && SameLength(r, n)
    ensures match JoinSpec(l, r, op, zero)
      case Ok(series) => result.Ok? && Holds(result.value, series)
      case Failed(e) => result == Failed(e)
    ensures l == [] && r == [] ==> result == Ok([])
    ensures l == [] && r != [] ==> result.Ok? && Mapped(result.value, r, v => op(zero, v))
    ensures l != [] && r == [] ==> result.Ok? && Mapped(result.value, l, v => op(v, zero))
    ensures result == Failed(DifferentGrouping) <==> l != [] && r != [] && l[0].grouping != r[0].grouping
    ensures result == Failed(GroupByAll) <==>
      && l != [] && r != [] && l[0].grouping == r[0].grouping
      && ((exists k :: 0 <= k < |l| && l[k].groupByAll) || (exists k :: 0 <= k < |r| && r[k].groupByAll))
  {
    if lhs == [] && rhs == [] { return Ok([]); }
    if lhs == [] {
      var joined := EvalNumLeft(zero, rhs, op, zero, r);
      forall i | 0 <= i < |r| ensures MappedOne(View(joined[i]), r[i], v => op(zero, v)) { NumLeftMaps(zero, r, op, i); }
      return Ok(joined);
    }
    if rhs == [] {
      var joined := EvalNumRight(lhs, zero, op, zero, l);
      forall i | 0 <= i < |l| ensures MappedOne(View(joined[i]), l[i], v => op(v, zero)) { NumRightMaps(l, zero, op, i); }
      return Ok(joined);
    }
    assert View(lhs[0]) == l[0] && View(rhs[0]) == r[0];
    if lhs[0].grouping != rhs[0].grouping { return Failed(DifferentGrouping); }
    var all := HasGroupByAll(lhs, l);
    if all { return Failed(GroupByAll); }
    all := HasGroupByAll(rhs, r);
    if all { return Failed(GroupByAll); }
    var joined := JoinTimeseries(lhs, rhs, op, zero, l, r, n);
    return Ok(joined);
  }

  // ---------------------------------------------------------------------------
  // The join against a plain outer join
  // ---------------------------------------------------------------------------

  predicate DistinctAttrs(s: seq<Series>) {
    forall i, j :: 0 <= i < j < |s| ==> s[i].attrs != s[j].attrs
  }

  predicate HasAttrs(s: seq<Series>, attrs: Attrs) {
    exists k :: 0 <= k < |s| && s[k].attrs == attrs
  }

  /** The first series with the attributes, or the length of `s`. */
  function Find(s: seq<Series>, attrs: Attrs): (i: nat)
    ensures i <= |s|
    ensures i < |s| ==> s[i].attrs == attrs
    ensures forall k :: 0 <= k < i ==> s[k].attrs != attrs
  {
    if s == [] then 0 else if s[0].attrs == attrs then 0 else 1 + Find(s[1..], attrs)
  }

  /** The right-hand series without a partner, with the left side taken as zero. */
  function Extras(l: seq<Series>, r: seq<Series>, op: Op, zero: Float): seq<Series> {
    if r == [] then []
    else (if HasAttrs(l, r[0].attrs) then [] else [Combine(Zeroed(r[0], zero), r[0], op)]) + Extras(l, r[1..], op, zero)
  }

  /** How many series of `r` have no partner in `l`. */
  function Unmatched(l: seq<Series>, r: seq<Series>): nat {
    if r == [] then 0 else (if HasAttrs(l, r[0].attrs) then 0 else 1) + Unmatched(l, r[1..])
  }

  /** The plain outer join: the left series in order, combined with their partners, and
      then the right series without a partner. */
  function OuterJoin(l: seq<Series>, r: seq<Series>, op: Op, zero: Float): seq<Series>
  {
    seq(|l|, k requires 0 <= k < |l| =>
      var i := Find(r, l[k].attrs);
      if i < |r| then Combine(l[k], r[i], op) else l[k]) + Extras(l, r, op, zero)
  }

  /** `r[i]` is reached after the result has outgrown its first allocation. */
  predicate Late(l: seq<Series>, r: seq<Series>, i: nat)
    requires i < |r|
  {
    |l| + Unmatched(l, r[..i]) > Max(|l|, |r|)
  }

  /** The left series `b` after the right series `r` have been handled, when the result
      holds `size` series before them. */
  function LeftAt(l: seq<Series>, b: Series, size: nat, capacity: nat, r: seq<Series>, op: Op): Series
  {
    var i := Find(r, b.attrs);
    if i < |r| && size + Unmatched(l, r[..i]) <= capacity then Combine(b, r[i], op) else b
  }

  /** `joined` is `base` after the right series `r` have been handled, and then `tail`. */
  predicate LeftThen(joined: seq<Series>, l: seq<Series>, base: seq<Series>, size: nat, capacity: nat, r: seq<Series>,
                     tail: seq<Series>, op: Op)
  {
    && |joined| == |base| + |tail|
    && (forall k :: 0 <= k < |base| ==> joined[k] == LeftAt(l, base[k], size, capacity, r, op))
    && joined[|base|..] == tail
  }

  /** A left series before and after the first right series is handled. */
  lemma LeftAtStep(l: seq<Series>, b: Series, size: nat, capacity: nat, r: seq<Series>, op: Op)
    requires DistinctAttrs(r) && r != [] && HasAttrs(l, b.attrs)
    ensures b.attrs != r[0].attrs ==>
      LeftAt(l, b, size, capacity, r, op)
      == LeftAt(l, b, if HasAttrs(l, r[0].attrs) then size else size + 1, capacity, r[1..], op)
    ensures b.attrs == r[0].attrs ==>
      && LeftAt(l, b, size, capacity, r, op) == (if size <= capacity then Combine(b, r[0], op) else b)
      && forall b' : Series :: b'.attrs == b.attrs ==> LeftAt(l, b', size, capacity, r[1..], op) == b'
  {
    var rest := r[1..];
    var i, i' := Find(r, b.attrs), Find(rest, b.attrs);
    if b.attrs == r[0].attrs {
      assert i == 0 && Unmatched(l, r[..0]) == 0;
      assert i' == |rest| by {
        forall k | 0 <= k < |rest| ensures rest[k].attrs != b.attrs {
          assert rest[k] == r[k + 1];
        }
      }
    } else {
      assert i == i' + 1;
      assert r[..i][0] == r[0] && r[..i][1..] == rest[..i'];
      assert Unmatched(l, r[..i]) == (if HasAttrs(l, r[0].attrs) then 0 else 1) + Unmatched(l, rest[..i']);
    }
  }

  predicate SameAttrs(a: seq<Series>, b: seq<Series>) {
    |a| == |b| && forall k :: 0 <= k < |a| ==> a[k].attrs == b[k].attrs
  }

  lemma LeftUnmatched(joined: seq<Series>, l: seq<Series>, base: seq<Series>, size: nat, capacity: nat, r: seq<Series>,
                      tail: seq<Series>, op: Op)
    requires DistinctAttrs(r) && r != [] && SameAttrs(base, l)
    requires !HasAttrs(l, r[0].attrs)
    requires LeftThen(joined, l, base, size + 1, capacity, r[1..], tail, op)
    ensures LeftThen(joined, l, base, size, capacity, r, tail, op)
  {
    forall k | 0 <= k < |base| ensures joined[k] == LeftAt(l, base[k], size, capacity, r, op) {
      assert base[k].attrs == l[k].attrs;
      LeftAtStep(l, base[k], size, capacity, r, op);
    }
  }

  /** `base` after the update for its partner `x`. */
  function Updated(base: seq<Series>, at: nat, x: Series, fits: bool, op: Op): (r: seq<Series>)
    requires at < |base|
    ensures |r| == |base|
    ensures forall k :: 0 <= k < |base| ==> r[k].attrs == base[k].attrs
  {
    if fits then base[at := Combine(base[at], x, op)] else base
  }

  lemma {:induction false} LeftMatched(joined: seq<Series>, l: seq<Series>, base: seq<Series>, size: nat, capacity: nat, r: seq<Series>,
                    tail: seq<Series>, at: nat, op: Op)
    requires DistinctAttrs(l) && DistinctAttrs(r) && r != [] && SameAttrs(base, l)
    requires HasAttrs(l, r[0].attrs)
    requires r[0].attrs in Index(l) && at == Index(l)[r[0].attrs]
    requires LeftThen(joined, l, Updated(base, at, r[0], size <= capacity, op), size, capacity, r[1..], tail, op)
    ensures LeftThen(joined, l, base, size, capacity, r, tail, op)
  {
    var base' := Updated(base, at, r[0], size <= capacity, op);
    forall k | 0 <= k < |base| ensures joined[k] == LeftAt(l, base[k], size, capacity, r, op) {
      assert base[k].attrs == l[k].attrs == base'[k].attrs;
      assert joined[k] == LeftAt(l, base'[k], size, capacity, r[1..], op);
      LeftAtStep(l, base[k], size, capacity, r, op);
      IndexFinds(l, k);
    }
  }

  lemma {:induction false} IndexFinds(s: seq<Series>, k: nat)
    requires DistinctAttrs(s) && k < |s|
    ensures s[k].attrs in Index(s) && Index(s)[s[k].attrs] == k
  {
    if k < |s| - 1 { IndexFinds(s[..|s| - 1], k); }
  }

  lemma {:induction false} IndexHas(s: seq<Series>, attrs: Attrs)
    ensures attrs in Index(s) <==> HasAttrs(s, attrs)
  {
  }

  lemma {:induction false} ExtrasMatched(l: seq<Series>, r: seq<Series>, op: Op, zero: Float)
    requires r != [] && HasAttrs(l, r[0].attrs)
    ensures Extras(l, r, op, zero) == Extras(l, r[1..], op, zero)
  {
    var rest := Extras(l, r[1..], op, zero);
    assert [] + rest == rest;
  }

  lemma NextUnmatched(l: seq<Series>, base: seq<Series>, extra: seq<Series>, capacity: nat, r: seq<Series>,
                      op: Op, zero: Float) returns (added: seq<Series>)
    requires SameAttrs(base, l)
    requires r != [] && !HasAttrs(l, r[0].attrs)
    ensures |added| == 1
    ensures JoinNext(base + extra, capacity, Index(l), r[0], op, zero) == base + (extra + added)
    ensures extra + Extras(l, r, op, zero) == (extra + added) + Extras(l, r[1..], op, zero)
  {
    IndexHas(l, r[0].attrs);
    added := [Combine(Zeroed(r[0], zero), r[0], op)];
    Assoc(base, extra, added);
    Assoc(extra, added, Extras(l, r[1..], op, zero));
  }

  lemma NextMatched(l: seq<Series>, base: seq<Series>, extra: seq<Series>, capacity: nat, r: seq<Series>,
                    op: Op, zero: Float) returns (at: nat)
    requires SameAttrs(base, l)
    requires r != [] && HasAttrs(l, r[0].attrs)
    ensures r[0].attrs in Index(l) && at == Index(l)[r[0].attrs] && at < |base|
    ensures JoinNext(base + extra, capacity, Index(l), r[0], op, zero)
         == Updated(base, at, r[0], |base + extra| <= capacity, op) + extra
    ensures Extras(l, r, op, zero) == Extras(l, r[1..], op, zero)
  {
    IndexHas(l, r[0].attrs);
    at := Index(l)[r[0].attrs];
    ExtrasMatched(l, r, op, zero);
    UpdateConcat(base, extra, at, Combine(base[at], r[0], op));
  }

  lemma UpdateConcat<T>(a: seq<T>, b: seq<T>, i: nat, x: T)
    requires i < |a|
    ensures (a + b)[i] == a[i]
    ensures (a + b)[i := x] == a[i := x] + b
  {
  }

  lemma {:induction false} JoinFromShape(l: seq<Series>, base: seq<Series>, extra: seq<Series>, capacity: nat, r: seq<Series>,
                                         op: Op, zero: Float)
    requires DistinctAttrs(l) && DistinctAttrs(r) && SameAttrs(base, l)
    ensures LeftThen(JoinFrom(base + extra, capacity, Index(l), r, op, zero),
                     l, base, |base + extra|, capacity, r, extra + Extras(l, r, op, zero), op)
    decreases |r|, 1
  {
    if r != [] {
      if HasAttrs(l, r[0].attrs) {
        JoinFromMatched(l, base, extra, capacity, r, op, zero);
      } else {
        JoinFromUnmatched(l, base, extra, capacity, r, op, zero);
      }
    }
  }

  lemma {:induction false} JoinFromUnmatched(l: seq<Series>, base: seq<Series>, extra: seq<Series>, capacity: nat, r: seq<Series>,
                                             op: Op, zero: Float)
    requires DistinctAttrs(l) && DistinctAttrs(r) && SameAttrs(base, l) && r != [] && !HasAttrs(l, r[0].attrs)
    ensures LeftThen(JoinFrom(base + extra, capacity, Index(l), r, op, zero),
                     l, base, |base + extra|, capacity, r, extra + Extras(l, r, op, zero), op)
    decreases |r|, 0
  {
    var added := NextUnmatched(l, base, extra, capacity, r, op, zero);
    JoinFromShape(l, base, extra + added, capacity, r[1..], op, zero);
    LeftUnmatched(JoinFrom(base + extra, capacity, Index(l), r, op, zero),
                  l, base, |base + extra|, capacity, r, extra + Extras(l, r, op, zero), op);
  }

  lemma {:induction false} JoinFromMatched(l: seq<Series>, base: seq<Series>, extra: seq<Series>, capacity: nat, r: seq<Series>,
                                           op: Op, zero: Float)
    requires DistinctAttrs(l) && DistinctAttrs(r) && SameAttrs(base, l) && r != [] && HasAttrs(l, r[0].attrs)
    ensures LeftThen(JoinFrom(base + extra, capacity, Index(l), r, op, zero),
                     l, base, |base + extra|, capacity, r, extra + Extras(l, r, op, zero), op)
    decreases |r|, 0
  {
    var at := NextMatched(l, base, extra, capacity, r, op, zero);
    JoinFromShape(l, Updated(base, at, r[0], |base + extra| <= capacity, op), extra, capacity, r[1..], op, zero);
    LeftMatched(JoinFrom(base + extra, capacity, Index(l), r, op, zero),
                l, base, |base + extra|, capacity, r, extra + Extras(l, r, op, zero), at, op);
  }

  /** What the engine computes, for operands with distinct attributes: a late partner is
      ignored, everything else is as in the outer join. */
  lemma {:induction false} JoinExactly(l: seq<Series>, r: seq<Series>, op: Op, zero: Float)
    requires l != [] && r != [] && DistinctAttrs(l) && DistinctAttrs(r)
    ensures |l| <= |JoinAll(l, r, op, zero)|
    ensures JoinAll(l, r, op, zero)[|l|..] == Extras(l, r, op, zero)
    ensures forall k {:trigger l[k]} :: 0 <= k < |l| ==>
      var i := Find(r, l[k].attrs);
      JoinAll(l, r, op, zero)[k] == if i < |r| && !Late(l, r, i) then Combine(l[k], r[i], op) else l[k]
  {
    var joined, extras := JoinAll(l, r, op, zero), Extras(l, r, op, zero);
    assert l + [] == l && [] + extras == extras;
    JoinFromShape(l, l, [], Max(|l|, |r|), r, op, zero);
    forall k {:trigger l[k]} | 0 <= k < |l|
      ensures var i := Find(r, l[k].attrs);
        joined[k] == if i < |r| && !Late(l, r, i) then Combine(l[k], r[i], op) else l[k]
    {
      assert joined[k] == LeftAt(l, l[k], |l|, Max(|l|, |r|), r, op);
    }
  }

  lemma {:induction false} ExtraAt(l: seq<Series>, r: seq<Series>, op: Op, zero: Float, i: nat)
    requires i < |r|
    ensures |Extras(l, r, op, zero)| == Unmatched(l, r)
    ensures !HasAttrs(l, r[i].attrs) ==>
      Unmatched(l, r[..i]) < Unmatched(l, r) && Extras(l, r, op, zero)[Unmatched(l, r[..i])] == Combine(Zeroed(r[i], zero), r[i], op)
  {
    ExtrasCount(l, r, op, zero);
    if i > 0 {
      ExtraAt(l, r[1..], op, zero, i - 1);
      assert r[..i][0] == r[0] && r[..i][1..] == r[1..][..i - 1];
    }
  }

  lemma {:induction false} ExtrasCount(l: seq<Series>, r: seq<Series>, op: Op, zero: Float)
    ensures |Extras(l, r, op, zero)| == Unmatched(l, r)
  {
    if r != [] { ExtrasCount(l, r[1..], op, zero); }
  }

  /** A series of the result: like `a` without its unit, with the operator applied at every point. */
  predicate AppliedTo(joined: Series, a: Series, left: seq<Float>, right: seq<Float>, op: Op) {
    joined == a.(values := joined.values, unit := UNIT_NONE) && IsPoints(joined.values, left, right, op)
  }

  /** The points of a join of distinct attributes: a left series with a partner that does not come
      too late holds `op` of both at every point, any other is as it was; after the left ones each
      right series without a partner comes in order and holds `op` of zero and its values. */
  lemma {:induction false} JoinPoints(l: seq<Series>, r: seq<Series>, op: Op, zero: Float, n: nat)
    requires l != [] && r != [] && DistinctAttrs(l) && DistinctAttrs(r) && SameLength(l, n) && SameLength(r, n)
    ensures |JoinAll(l, r, op, zero)| == |l| + Unmatched(l, r)
    ensures forall k, i :: 0 <= k < |l| && 0 <= i < |r| && l[k].attrs == r[i].attrs && !Late(l, r, i) ==>
      AppliedTo(JoinAll(l, r, op, zero)[k], l[k], l[k].values, r[i].values, op)
    ensures forall k :: 0 <= k < |l| && (forall i :: 0 <= i < |r| && l[k].attrs == r[i].attrs ==> Late(l, r, i)) ==>
      JoinAll(l, r, op, zero)[k] == l[k]
    ensures forall i :: 0 <= i < |r| && !HasAttrs(l, r[i].attrs) ==>
      && Unmatched(l, r[..i]) < Unmatched(l, r)
      && AppliedTo(JoinAll(l, r, op, zero)[|l| + Unmatched(l, r[..i])], r[i], Fill(n, zero), r[i].values, op)
  {
    var joined := JoinAll(l, r, op, zero);
    JoinExactly(l, r, op, zero);
    ExtrasCount(l, r, op, zero);
    forall k, i | 0 <= k < |l| && 0 <= i < |r| && l[k].attrs == r[i].attrs && !Late(l, r, i)
      ensures AppliedTo(joined[k], l[k], l[k].values, r[i].values, op)
    {
      FindDistinct(r, i);
    }
    forall i | 0 <= i < |r| && !HasAttrs(l, r[i].attrs)
      ensures Unmatched(l, r[..i]) < Unmatched(l, r)
      ensures AppliedTo(joined[|l| + Unmatched(l, r[..i])], r[i], Fill(n, zero), r[i].values, op)
    {
      ExtraAt(l, r, op, zero, i);
      assert joined[|l| + Unmatched(l, r[..i])] == joined[|l|..][Unmatched(l, r[..i])];
    }
  }

  lemma {:induction false} FindDistinct(s: seq<Series>, i: nat)
    requires DistinctAttrs(s) && i < |s|
    ensures Find(s, s[i].attrs) == i
  {
  }

  /** The join is the outer join if and only if combining the late partners would change
      nothing. */
  lemma JoinIsOuterJoinIff(l: seq<Series>, r: seq<Series>, op: Op, zero: Float)
    requires l != [] && r != [] && DistinctAttrs(l) && DistinctAttrs(r)
    ensures JoinAll(l, r, op, zero) == OuterJoin(l, r, op, zero)
       <==> forall k, i :: 0 <= k < |l| && 0 <= i < |r| && l[k].attrs == r[i].attrs && Late(l, r, i) ==> Combine(l[k], r[i], op) == l[k]
  {
    if JoinAll(l, r, op, zero) == OuterJoin(l, r, op, zero) {
      forall k, i | 0 <= k < |l| && 0 <= i < |r| && l[k].attrs == r[i].attrs && Late(l, r, i)
        ensures Combine(l[k], r[i], op) == l[k]
      {
        FindDistinct(r, i);
        JoinExactly(l, r, op, zero);
        assert JoinAll(l, r, op, zero)[k] == OuterJoin(l, r, op, zero)[k];
      }
    } else {
      var k, i := DifferenceIsLate(l, r, op, zero);
    }
  }

  /** Where the join differs from the outer join there is a late partner. */
  lemma DifferenceIsLate(l: seq<Series>, r: seq<Series>, op: Op, zero: Float) returns (k: nat, i: nat)
    requires l != [] && r != [] && DistinctAttrs(l) && DistinctAttrs(r)
    requires JoinAll(l, r, op, zero) != OuterJoin(l, r, op, zero)
    ensures k < |l| && i < |r| && l[k].attrs == r[i].attrs && Late(l, r, i) && Combine(l[k], r[i], op) != l[k]
  {
    var joined, outer := JoinAll(l, r, op, zero), OuterJoin(l, r, op, zero);
    JoinExactly(l, r, op, zero);
    k := SomeDifference(joined, outer, |l|);
    i := Find(r, l[k].attrs);
  }

  lemma SomeDifference<T>(a: seq<T>, b: seq<T>, n: nat) returns (k: nat)
    requires a != b && n <= |a| && n <= |b| && a[n..] == b[n..]
    ensures k < n && a[k] != b[k]
  {
    assert a == a[..n] + a[n..] && b == b[..n] + b[n..];
    assert a[..n] != b[..n];
    k :| 0 <= k < n && a[..n][k] != b[..n][k];
  }

  lemma {:induction false} UnmatchedPrefix(l: seq<Series>, r: seq<Series>, i: nat)
    requires i <= |r|
    ensures Unmatched(l, r[..i]) <= Unmatched(l, r)
  {
    if i > 0 {
      assert r[..i][0] == r[0] && r[..i][1..] == r[1..][..i - 1];
      UnmatchedPrefix(l, r[1..], i - 1);
    }
  }

  /** In particular when the result fits into its first allocation. */
  lemma {:induction false} JoinFits(l: seq<Series>, r: seq<Series>, op: Op, zero: Float)
    requires l != [] && r != [] && DistinctAttrs(l) && DistinctAttrs(r)
    requires |l| + Unmatched(l, r) <= Max(|l|, |r|)
    ensures JoinAll(l, r, op, zero) == OuterJoin(l, r, op, zero)
  {
    forall i | 0 <= i < |r| ensures !Late(l, r, i) { UnmatchedPrefix(l, r, i); }
    JoinIsOuterJoinIff(l, r, op, zero);
  }

  /** A case where it does not fit: two left series, two new right series, and then a
      partner of the first left series. The partner is ignored. */
  lemma LatePartnerIgnored(a: Series, x: Series, b: Series, c: Series, partner: Series, op: Op, zero: Float)
    requires DistinctAttrs([a, x, b, c]) && partner.attrs == a.attrs
    ensures [a, x] <= JoinAll([a, x], [b, c, partner], op, zero)
    ensures OuterJoin([a, x], [b, c, partner], op, zero)[0] == Combine(a, partner, op)
  {
    var l, r := [a, x], [b, c, partner];
    ThirdIsLate(a, x, b, c, partner);
    JoinExactly(l, r, op, zero);
    assert l[0] == a && l[1] == x;
  }

  lemma ThirdIsLate(a: Series, x: Series, b: Series, c: Series, partner: Series)
    requires DistinctAttrs([a, x, b, c]) && partner.attrs == a.attrs
    ensures var l, r := [a, x], [b, c, partner];
      DistinctAttrs(l) && DistinctAttrs(r) && Late(l, r, 2) && Find(r, a.attrs) == 2 && Find(r, x.attrs) == 3
  {
    var l, r := [a, x], [b, c, partner];
    assert [a, x, b, c][0] == a && [a, x, b, c][1] == x && [a, x, b, c][2] == b && [a, x, b, c][3] == c;
    assert Unmatched(l, r[..2]) == 2 by {
      assert !HasAttrs(l, b.attrs) && !HasAttrs(l, c.attrs);
      assert r[..2] == [b, c] && [b, c][1..] == [c] && [c][1..] == [];
      assert Unmatched(l, [c]) == 1;
    }
    FindDistinct(r, 2);
  }
}
