/** What the trace page shows: the tree of the trace's spans, each with its self time. */
module TraceShow {
  import opened SelfTime
  import opened TraceTree
  import opened TraceWalk

  /** The list of a node's children, in the order in which they were attached. */
  function KidList(nodes: seq<Span>, recs: seq<Rec>, p: nat): (kids: seq<Span>)
    requires |recs| <= |nodes|
  {
    Gathered([], nodes, Places(recs, |recs|), Below(p), |recs|)
  }

  lemma {:induction false} GatheredAreKids(nodes: seq<Span>, recs: seq<Rec>, p: nat, n: nat)
    requires n <= |recs| <= |nodes|
    ensures var list, kids := Gathered([], nodes, Places(recs, |recs|), Below(p), n), KidsIn(recs, p, n);
      |list| == |kids| && forall k :: 0 <= k < |kids| ==> list[k] == nodes[kids[k]]
  {
    GatheredFrom(nodes, Places(recs, |recs|), Below(p), n);
    PositionsAreKids(recs, p, n);
  }

  /** The positions before `n` with this place. */
  function PositionsAt(places: seq<Place>, place: Place, n: nat): (positions: seq<nat>)
    requires n <= |places|
    ensures forall k :: 0 <= k < |positions| ==> positions[k] < n
  {
    if n == 0 then []
    else if places[n - 1] == place then PositionsAt(places, place, n - 1) + [n - 1]
    else PositionsAt(places, place, n - 1)
  }

  lemma {:induction false} GatheredFrom(nodes: seq<Span>, places: seq<Place>, place: Place, n: nat)
    requires n <= |places| <= |nodes|
    ensures var list, positions := Gathered([], nodes, places, place, n), PositionsAt(places, place, n);
      |list| == |positions| && forall k :: 0 <= k < |list| ==> list[k] == nodes[positions[k]]
  {
    if n > 0 { GatheredFrom(nodes, places, place, n - 1); }
  }

  lemma {:induction false} PositionsAreKids(recs: seq<Rec>, p: nat, n: nat)
    requires n <= |recs|
    ensures PositionsAt(Places(recs, |recs|), Below(p), n) == KidsIn(recs, p, n)
  {
    if n > 0 {
      PositionsAreKids(recs, p, n - 1);
      PlaceAt(recs, |recs|, n - 1);
    }
  }

  function Extents(spans: seq<Span>): (extents: seq<Interval>)
    ensures |extents| == |spans| && forall i :: 0 <= i < |spans| ==> extents[i] == spans[i].Extent()
  {
    if spans == [] then [] else Extents(spans[..|spans| - 1]) + [spans[|spans| - 1].Extent()]
  }

  predicate Chronological(spans: seq<Span>) {
    forall i, j :: 0 <= i < j < |spans| ==> spans[i].time <= spans[j].time
  }

  /** Spans that come in order of time are attached in order of time. */
  lemma KidsChronological(nodes: seq<Span>, recs: seq<Rec>, p: nat)
    requires |recs| <= |nodes| && Chronological(nodes[..|recs|])
    ensures SortedByTime(Extents(KidList(nodes, recs, p)))
  {
    GatheredAreKids(nodes, recs, p, |recs|);
    KidsInFacts(recs, p, |recs|);
    var list, kids := KidList(nodes, recs, p), Kids(recs, p);
    forall i, j | 0 <= i < j < |list| ensures list[i].time <= list[j].time {
      assert nodes[..|recs|][kids[i]].time <= nodes[..|recs|][kids[j]].time;
    }
  }

  // ---------------------------------------------------------------------------
  // One span
  // ---------------------------------------------------------------------------

  /** The callback's sweep over the children in the order of the list. */
  method SweepChildren(s: Span)
    requires s.durationSelf == s.duration
    modifies s`durationSelf
    ensures s.durationSelf == Sweep(s.Extent(), Extents(s.children))
  {
    var prevEndTime := s.time;
    var kids := s.children;
    for i := 0 to |kids|
      invariant s.durationSelf == Sweep(s.Extent(), Extents(kids[..i]))
      invariant prevEndTime == EndAfter(s.time, Extents(kids[..i]))
    {
      var child := kids[i];
      assert kids[..i + 1][..i] == kids[..i];
      s.UpdateDurationSelf(child, prevEndTime);
      if child.Extent().End() > prevEndTime {
        prevEndTime := child.Extent().End();
      }
    }
    assert kids[..|kids|] == kids;
  }

  /** `order` are the positions of the spans of `list` among the nodes. */
  ghost predicate Locates(nodes: seq<Span>, order: seq<nat>, list: seq<Span>) {
    |order| == |list| && forall k :: 0 <= k < |order| ==> order[k] < |nodes| && nodes[order[k]] == list[k]
  }

  /** Where to insert a span so that the list stays sorted. */
  method FindSlot(sorted: seq<Span>, s: Span) returns (k: nat)
    requires Chronological(sorted)
    ensures k <= |sorted|
    ensures forall j :: 0 <= j < k ==> sorted[j].time <= s.time
    ensures forall j :: k <= j < |sorted| ==> s.time < sorted[j].time
  {
    k := |sorted|;
    while k > 0 && s.time < sorted[k - 1].time
      invariant 0 <= k <= |sorted|
      invariant forall j :: k <= j < |sorted| ==> s.time < sorted[j].time
    {
      k := k - 1;
    }
  }

  function Inserted<T>(list: seq<T>, k: nat, x: T): (r: seq<T>)
    requires k <= |list|
    ensures |r| == |list| + 1
    ensures forall i :: 0 <= i < |r| ==> r[i] == if i < k then list[i] else if i == k then x else list[i - 1]
  {
    list[..k] + [x] + list[k..]
  }

  /** `sorted` are the first `i` spans of the list in order of time, and `order` their positions. */
  ghost predicate SortedUpTo(nodes: seq<Span>, list: seq<Span>, at: seq<nat>, i: nat, sorted: seq<Span>, order: seq<nat>)
    requires i <= |list| == |at|
  {
    && Chronological(sorted) && Locates(nodes, order, sorted)
    && multiset(sorted) == multiset(list[..i]) && multiset(order) == multiset(at[..i])
  }

  lemma InsertStep(nodes: seq<Span>, list: seq<Span>, at: seq<nat>, i: nat, sorted: seq<Span>, order: seq<nat>, k: nat)
    requires i < |list| && Locates(nodes, at, list) && SortedUpTo(nodes, list, at, i, sorted, order) && k <= |sorted|
    requires forall j :: 0 <= j < k ==> sorted[j].time <= list[i].time
    requires forall j :: k <= j < |sorted| ==> list[i].time < sorted[j].time
    ensures SortedUpTo(nodes, list, at, i + 1, Inserted(sorted, k, list[i]), Inserted(order, k, at[i]))
  {
    InsertKeepsAll(sorted, k, list, i);
    InsertKeepsAll(order, k, at, i);
  }

  /** Sorts by start time. It stands for the library's sort, of which nothing is used but that
      the result is an ordered permutation. */
  method SortByTime(list: seq<Span>, ghost nodes: seq<Span>, ghost at: seq<nat>)
    returns (sorted: seq<Span>, ghost order: seq<nat>)
    requires Locates(nodes, at, list)
    ensures Chronological(sorted) && Locates(nodes, order, sorted)
    ensures multiset(sorted) == multiset(list) && multiset(order) == multiset(at)
  {
    sorted, order := [], [];
    for i := 0 to |list|
      invariant SortedUpTo(nodes, list, at, i, sorted, order)
    {
      var k := FindSlot(sorted, list[i]);
      InsertStep(nodes, list, at, i, sorted, order, k);
      sorted, order := Inserted(sorted, k, list[i]), Inserted(order, k, at[i]);
    }
    assert list[..|list|] == list && at[..|list|] == at;
  }

  lemma InsertKeepsAll<T>(some: seq<T>, k: nat, list: seq<T>, i: nat)
    requires k <= |some| && i < |list| && multiset(some) == multiset(list[..i])
    ensures multiset(Inserted(some, k, list[i])) == multiset(list[..i + 1])
  {
    assert some[..k] + some[k..] == some;
    assert list[..i + 1] == list[..i] + [list[i]];
  }

  // ---------------------------------------------------------------------------
  // The subtree of a node
  // ---------------------------------------------------------------------------

  /** `q` is a node of the subtree of `p`. */
  ghost predicate Has(recs: seq<Rec>, p: nat, q: nat)
    requires AllReach(recs)
  {
    IsNode(recs, q) && Under(recs, p, q)
  }

  /** `q` lies in the subtree of one of the first `k` nodes of the list. */
  ghost predicate SomeHas(recs: seq<Rec>, order: seq<nat>, k: nat, q: nat)
    requires AllReach(recs) && k <= |order|
  {
    exists j :: 0 <= j < k && Has(recs, order[j], q)
  }

  /** The list holds the children of `p`, each once. */
  ghost predicate Lists(recs: seq<Rec>, p: nat, order: seq<nat>) {
    && (forall c :: c in order <==> Attached(recs, c) && ParentOf(recs, c) == p)
    && (forall i, j :: 0 <= i < j < |order| ==> order[i] != order[j])
  }

  lemma KidsAreListed(recs: seq<Rec>, p: nat, order: seq<nat>)
    requires multiset(order) == multiset(Kids(recs, p))
    ensures Lists(recs, p, order)
  {
    var kids := Kids(recs, p);
    KidsInFacts(recs, p, |recs|);
    forall c ensures c in order <==> c in kids {
      assert c in order <==> c in multiset(order);
      assert c in kids <==> c in multiset(kids);
    }
    forall i, j | 0 <= i < j < |order| ensures order[i] != order[j] {
      if order[i] == order[j] {
        Twice(order, i, j);
        Once(kids, order[i]);
      }
    }
  }

  lemma Twice(list: seq<nat>, i: nat, j: nat)
    requires i < j < |list| && list[i] == list[j]
    ensures multiset(list)[list[i]] >= 2
  {
    assert list == list[..j] + [list[j]] + list[j + 1..];
    assert list[i] in list[..j];
  }

  lemma {:induction false} Once(list: seq<nat>, x: nat)
    requires forall a, b :: 0 <= a < b < |list| ==> list[a] < list[b]
    ensures multiset(list)[x] <= 1
  {
    if list != [] {
      var last := |list| - 1;
      assert list == list[..last] + [list[last]];
      Once(list[..last], x);
      if x == list[last] { assert x !in list[..last]; }
    }
  }

  /** The subtree of a node is the node and the subtrees of its children. */
  lemma Subtree(recs: seq<Rec>, p: nat, order: seq<nat>, q: nat)
    requires AllReach(recs) && IsNode(recs, p) && Lists(recs, p, order)
    ensures Has(recs, p, q) <==> q == p || SomeHas(recs, order, |order|, q)
  {
    if Has(recs, p, q) && q != p {
      var c := KidToward(recs, p, q);
      assert c in order;
    }
    if SomeHas(recs, order, |order|, q) {
      var j :| 0 <= j < |order| && Has(recs, order[j], q);
      assert order[j] in order;
      UnderParent(recs, order[j], q);
    }
  }

  /** The subtrees of different children, and the node itself, have nothing in common. */
  lemma SubtreesApart(recs: seq<Rec>, p: nat, order: seq<nat>, k: nat, q: nat)
    requires AllReach(recs) && IsNode(recs, p) && Lists(recs, p, order) && k < |order|
    requires Has(recs, order[k], q)
    ensures q != p && forall j :: 0 <= j < |order| && Has(recs, order[j], q) ==> j == k
  {
    assert order[k] in order;
    KidDepth(recs, order[k]);
    UnderIsDeeper(recs, order[k], q);
    forall j | 0 <= j < |order| && Has(recs, order[j], q) ensures j == k {
      assert order[j] in order;
      KidDepth(recs, order[j]);
      SiblingsApart(recs, order[j], order[k], q);
    }
  }

  // ---------------------------------------------------------------------------
  // The walk
  // ---------------------------------------------------------------------------

  /** What the walk may change of each node. */
  datatype View = View(kids: seq<seq<Span>>, self: seq<int>)

  ghost predicate Shows(nodes: seq<Span>, view: View)
    reads nodes`children, nodes`durationSelf
  {
    && |view.kids| == |view.self| == |nodes|
    && forall p :: 0 <= p < |nodes| ==> nodes[p].children == view.kids[p] && nodes[p].durationSelf == view.self[p]
  }

  /** The node as it was built. */
  ghost predicate Untouched(nodes: seq<Span>, recs: seq<Rec>, view: View, q: nat)
    requires |recs| <= |nodes| == |view.kids| == |view.self| && q < |nodes|
  {
    view.kids[q] == KidList(nodes, recs, q) && view.self[q] == nodes[q].duration
  }

  /** The node as it is shown: its self time is swept over the children in the order in which
      they were attached, and the children are sorted. */
  ghost predicate Finished(nodes: seq<Span>, recs: seq<Rec>, view: View, q: nat)
    requires |recs| <= |nodes| == |view.kids| == |view.self| && q < |nodes|
  {
    && multiset(view.kids[q]) == multiset(KidList(nodes, recs, q)) && Chronological(view.kids[q])
    && view.self[q] == Sweep(nodes[q].Extent(), Extents(KidList(nodes, recs, q)))
  }

  ghost predicate SameAt(a: View, b: View, q: nat)
    requires |a.kids| == |a.self| == |b.kids| == |b.self| && q < |a.kids|
  {
    a.kids[q] == b.kids[q] && a.self[q] == b.self[q]
  }

  /** A list of nodes that goes with the records. */
  ghost predicate Fits(nodes: seq<Span>, recs: seq<Rec>) {
    && DistinctSpans(nodes) && AllReach(recs) && Root(recs) < |nodes|
    && |recs| <= |nodes| <= |recs| + 1
  }

  method SortChildren(s: Span, ghost nodes: seq<Span>, ghost recs: seq<Rec>, ghost p: nat) returns (ghost order: seq<nat>)
    requires |recs| <= |nodes| && s.children == KidList(nodes, recs, p)
    modifies s`children
    ensures multiset(s.children) == multiset(KidList(nodes, recs, p)) && Chronological(s.children)
    ensures Lists(recs, p, order) && Locates(nodes, order, s.children)
  {
    GatheredAreKids(nodes, recs, p, |recs|);
    s.children, order := SortByTime(s.children, nodes, Kids(recs, p));
    KidsAreListed(recs, p, order);
  }

  /** The callback for one node. */
  method ShowSpan(s: Span, ghost nodes: seq<Span>, ghost recs: seq<Rec>, ghost p: nat, ghost view: View)
    returns (ghost after: View, ghost order: seq<nat>)
    requires Fits(nodes, recs) && p < |nodes| && s == nodes[p] && Shows(nodes, view)
    requires Untouched(nodes, recs, view, p)
    modifies s`children, s`durationSelf
    ensures Shows(nodes, after) && Finished(nodes, recs, after, p)
    ensures forall q :: 0 <= q < |nodes| && q != p ==> SameAt(view, after, q)
    ensures Lists(recs, p, order) && Locates(nodes, order, after.kids[p])
  {
    SweepChildren(s);
    order := SortChildren(s, nodes, recs, p);
    after := View(view.kids[p := s.children], view.self[p := s.durationSelf]);
  }

  ghost predicate Sized(nodes: seq<Span>, view: View) {
    |view.kids| == |view.self| == |nodes|
  }

  ghost predicate AllUntouched(nodes: seq<Span>, recs: seq<Rec>, view: View, p: nat)
    requires Fits(nodes, recs) && Sized(nodes, view)
  {
    forall q: nat :: q < |nodes| && Has(recs, p, q) ==> Untouched(nodes, recs, view, q)
  }

  /** What the walk from `p` makes of the nodes: those of its subtree are finished, the others
      stay as they are. */
  ghost predicate Walked(nodes: seq<Span>, recs: seq<Rec>, before: View, after: View, p: nat)
    requires Fits(nodes, recs) && Sized(nodes, before) && Sized(nodes, after)
  {
    && (forall q: nat :: q < |nodes| && Has(recs, p, q) ==> Finished(nodes, recs, after, q))
    && (forall q: nat :: q < |nodes| && !Has(recs, p, q) ==> SameAt(before, after, q))
  }

  /** The same after the callback for `p` and the walks from the first `k` of its children. */
  ghost predicate PartlyWalked(nodes: seq<Span>, recs: seq<Rec>, before: View, after: View, order: seq<nat>, k: nat, p: nat)
    requires Fits(nodes, recs) && Sized(nodes, before) && Sized(nodes, after) && k <= |order|
  {
    && (forall q: nat :: q < |nodes| && (q == p || SomeHas(recs, order, k, q)) ==> Finished(nodes, recs, after, q))
    && (forall q: nat :: q < |nodes| && !(q == p || SomeHas(recs, order, k, q)) ==> SameAt(before, after, q))
  }

  lemma WalkStep(nodes: seq<Span>, recs: seq<Rec>, start: View, before: View, after: View, order: seq<nat>, k: nat, p: nat)
    requires Fits(nodes, recs) && Sized(nodes, start) && Sized(nodes, before) && Sized(nodes, after)
    requires IsNode(recs, p) && Lists(recs, p, order) && k < |order|
    requires PartlyWalked(nodes, recs, start, before, order, k, p)
    requires Walked(nodes, recs, before, after, order[k])
    ensures PartlyWalked(nodes, recs, start, after, order, k + 1, p)
  {
    forall q: nat | q < |nodes|
      ensures q == p || SomeHas(recs, order, k + 1, q) ==> Finished(nodes, recs, after, q)
      ensures !(q == p || SomeHas(recs, order, k + 1, q)) ==> SameAt(start, after, q)
    {
      SomeHasStep(recs, order, k, q);
      if Has(recs, order[k], q) {
        SubtreesApart(recs, p, order, k, q);
      } else {
        assert SameAt(before, after, q);
      }
    }
  }

  /** Before the walk from the child `k` its subtree is as it was built. */
  lemma ChildUntouched(nodes: seq<Span>, recs: seq<Rec>, start: View, before: View, order: seq<nat>, k: nat, p: nat)
    requires Fits(nodes, recs) && Sized(nodes, start) && Sized(nodes, before)
    requires IsNode(recs, p) && Lists(recs, p, order) && k < |order|
    requires AllUntouched(nodes, recs, start, p)
    requires PartlyWalked(nodes, recs, start, before, order, k, p)
    ensures AllUntouched(nodes, recs, before, order[k])
  {
    forall q: nat | q < |nodes| && Has(recs, order[k], q) ensures Untouched(nodes, recs, before, q) {
      SubtreesApart(recs, p, order, k, q);
      assert SomeHas(recs, order, |order|, q);
      Subtree(recs, p, order, q);
      assert SameAt(start, before, q) && Untouched(nodes, recs, start, q);
    }
  }

  lemma WalkEnds(nodes: seq<Span>, recs: seq<Rec>, start: View, after: View, order: seq<nat>, visits: seq<nat>, p: nat)
    requires Fits(nodes, recs) && Sized(nodes, start) && Sized(nodes, after)
    requires IsNode(recs, p) && Lists(recs, p, order)
    requires PartlyWalked(nodes, recs, start, after, order, |order|, p)
    requires PartlyVisits(recs, visits, order, |order|, p)
    ensures Walked(nodes, recs, start, after, p) && VisitsOnce(recs, visits, p)
  {
    forall q: nat ensures Has(recs, p, q) <==> q == p || SomeHas(recs, order, |order|, q) {
      Subtree(recs, p, order, q);
    }
  }

  /** The list of visits holds each node of the subtree of `p` once, and nothing else. */
  ghost predicate VisitsOnce(recs: seq<Rec>, visits: seq<nat>, p: nat)
    requires AllReach(recs)
  {
    forall q :: multiset(visits)[q] == if Has(recs, p, q) then 1 else 0
  }

  ghost predicate PartlyVisits(recs: seq<Rec>, visits: seq<nat>, order: seq<nat>, k: nat, p: nat)
    requires AllReach(recs) && k <= |order|
  {
    forall q :: multiset(visits)[q] == if q == p || SomeHas(recs, order, k, q) then 1 else 0
  }

  lemma VisitStep(recs: seq<Rec>, visits: seq<nat>, more: seq<nat>, order: seq<nat>, k: nat, p: nat)
    requires AllReach(recs) && IsNode(recs, p) && Lists(recs, p, order) && k < |order|
    requires PartlyVisits(recs, visits, order, k, p) && VisitsOnce(recs, more, order[k])
    ensures PartlyVisits(recs, visits + more, order, k + 1, p)
  {
    forall q ensures multiset(visits + more)[q] == if q == p || SomeHas(recs, order, k + 1, q) then 1 else 0 {
      SomeHasStep(recs, order, k, q);
      if Has(recs, order[k], q) { SubtreesApart(recs, p, order, k, q); }
      assert multiset(visits + more)[q] == multiset(visits)[q] + multiset(more)[q];
    }
  }

  lemma SomeHasStep(recs: seq<Rec>, order: seq<nat>, k: nat, q: nat)
    requires AllReach(recs) && k < |order|
    ensures SomeHas(recs, order, k + 1, q) <==> SomeHas(recs, order, k, q) || Has(recs, order[k], q)
  {
  }

  lemma ChildIsDeeper(recs: seq<Rec>, p: nat, order: seq<nat>, k: nat)
    requires AllReach(recs) && IsNode(recs, p) && Lists(recs, p, order) && k < |order|
    ensures IsNode(recs, order[k]) && Depth(recs, order[k]) == Depth(recs, p) + 1
  {
    assert order[k] in order;
    KidDepth(recs, order[k]);
  }

  /** Walks the subtree of a node: it ends, visits each node of the subtree exactly once, and
      finishes it. */
  method Walk(s: Span, ghost nodes: seq<Span>, ghost recs: seq<Rec>, ghost p: nat, ghost view: View)
    returns (ghost after: View, ghost visits: seq<nat>)
    requires Fits(nodes, recs) && IsNode(recs, p) && p < |nodes| && s == nodes[p]
    requires Shows(nodes, view) && AllUntouched(nodes, recs, view, p)
    modifies nodes`children, nodes`durationSelf
    ensures Shows(nodes, after) && Walked(nodes, recs, view, after, p) && VisitsOnce(recs, visits, p)
    decreases |recs| - Depth(recs, p)
  {
    assert Has(recs, p, p);
    ghost var order;
    after, order := ShowSpan(s, nodes, recs, p, view);
    visits := [p];
    var kids := s.children;
    for k := 0 to |kids|
      invariant Shows(nodes, after)
      invariant PartlyWalked(nodes, recs, view, after, order, k, p)
      invariant PartlyVisits(recs, visits, order, k, p)
    {
      ChildIsDeeper(recs, p, order, k);
      ChildUntouched(nodes, recs, view, after, order, k, p);
      ghost var before, more := after, [];
      after, more := Walk(kids[k], nodes, recs, order[k], before);
      WalkStep(nodes, recs, view, before, after, order, k, p);
      VisitStep(recs, visits, more, order, k, p);
      visits := visits + more;
    }
    WalkEnds(nodes, recs, view, after, order, visits, p);
  }

  // ---------------------------------------------------------------------------
  // The window of the trace
  // ---------------------------------------------------------------------------

  /** Every node of the list's subtrees lies between the times. */
  ghost predicate WindowHolds(nodes: seq<Span>, recs: seq<Rec>, order: seq<nat>, k: nat, start: int, end: int)
    requires AllReach(recs) && k <= |order|
  {
    forall q: nat :: q < |nodes| && SomeHas(recs, order, k, q) ==> start <= nodes[q].time && nodes[q].Extent().End() <= end
  }

  /** Some node of the subtree starts, and some ends, right at the border. */
  ghost predicate WindowTight(nodes: seq<Span>, recs: seq<Rec>, p: nat, start: int, end: int)
    requires AllReach(recs)
  {
    && (exists q: nat :: q < |nodes| && Has(recs, p, q) && nodes[q].time == start)
    && (exists q: nat :: q < |nodes| && Has(recs, p, q) && nodes[q].Extent().End() == end)
  }

  lemma TightAbove(nodes: seq<Span>, recs: seq<Rec>, p: nat, c: nat, start: int, end: int)
    requires AllReach(recs) && Attached(recs, c) && ParentOf(recs, c) == p && WindowTight(nodes, recs, c, start, end)
    ensures WindowTight(nodes, recs, p, start, end)
  {
    var a: nat :| a < |nodes| && Has(recs, c, a) && nodes[a].time == start;
    var b: nat :| b < |nodes| && Has(recs, c, b) && nodes[b].Extent().End() == end;
    UnderParent(recs, c, a);
    UnderParent(recs, c, b);
    assert Has(recs, p, a) && Has(recs, p, b);
  }

  lemma WindowOfSubtree(nodes: seq<Span>, recs: seq<Rec>, p: nat, order: seq<nat>, start: int, end: int)
    requires AllReach(recs) && IsNode(recs, p) && Lists(recs, p, order) && p < |nodes|
    requires WindowHolds(nodes, recs, order, |order|, start, end)
    requires start <= nodes[p].time && nodes[p].Extent().End() <= end
    ensures WindowHolds(nodes, recs, [p], 1, start, end)
  {
    forall q: nat | q < |nodes| && SomeHas(recs, [p], 1, q)
      ensures start <= nodes[q].time && nodes[q].Extent().End() <= end
    {
      Subtree(recs, p, order, q);
    }
  }

  lemma WindowStep(nodes: seq<Span>, recs: seq<Rec>, order: seq<nat>, k: nat, start: int, end: int, s: int, e: int)
    requires AllReach(recs) && k < |order|
    requires WindowHolds(nodes, recs, order, k, start, end) && WindowHolds(nodes, recs, [order[k]], 1, s, e)
    ensures WindowHolds(nodes, recs, order, k + 1, Min(start, s), Max(end, e))
  {
    forall q: nat | q < |nodes| && SomeHas(recs, order, k + 1, q)
      ensures Min(start, s) <= nodes[q].time && nodes[q].Extent().End() <= Max(end, e)
    {
      SomeHasStep(recs, order, k, q);
      assert Has(recs, order[k], q) ==> Has(recs, [order[k]][0], q);
    }
  }

  /** The window of the node itself and the subtrees of its first `k` children. */
  ghost predicate WindowSoFar(nodes: seq<Span>, recs: seq<Rec>, p: nat, order: seq<nat>, k: nat, start: int, end: int)
    requires AllReach(recs) && k <= |order| && p < |nodes|
  {
    && start <= nodes[p].time && nodes[p].Extent().End() <= end
    && WindowHolds(nodes, recs, order, k, start, end) && WindowTight(nodes, recs, p, start, end)
  }

  lemma WindowGrows(nodes: seq<Span>, recs: seq<Rec>, p: nat, order: seq<nat>, k: nat, start: int, end: int, s: int, e: int)
    requires AllReach(recs) && Lists(recs, p, order) && k < |order| && p < |nodes|
    requires WindowSoFar(nodes, recs, p, order, k, start, end)
    requires WindowHolds(nodes, recs, [order[k]], 1, s, e) && WindowTight(nodes, recs, order[k], s, e)
    ensures WindowSoFar(nodes, recs, p, order, k + 1, Min(start, s), Max(end, e))
  {
    assert order[k] in order;
    WindowStep(nodes, recs, order, k, start, end, s, e);
    TightAbove(nodes, recs, p, order[k], s, e);
  }

  lemma WindowOfNode(nodes: seq<Span>, recs: seq<Rec>, p: nat, order: seq<nat>)
    requires AllReach(recs) && IsNode(recs, p) && p < |nodes|
    ensures WindowSoFar(nodes, recs, p, order, 0, nodes[p].time, nodes[p].Extent().End())
  {
    assert Has(recs, p, p);
  }

  /** The children of a node that has not been visited. */
  lemma ChildrenLocated(nodes: seq<Span>, recs: seq<Rec>, view: View, p: nat)
    requires Fits(nodes, recs) && IsNode(recs, p) && p < |nodes| && Shows(nodes, view) && AllUntouched(nodes, recs, view, p)
    ensures Lists(recs, p, Kids(recs, p)) && Locates(nodes, Kids(recs, p), nodes[p].children)
  {
    assert Has(recs, p, p) && Untouched(nodes, recs, view, p);
    KidsAreListed(recs, p, Kids(recs, p));
    GatheredAreKids(nodes, recs, p, |recs|);
  }

  /** The tightest window that holds every span of the subtree. */
  method TreeStartEndTime(s: Span, ghost nodes: seq<Span>, ghost recs: seq<Rec>, ghost p: nat, ghost view: View)
    returns (startTime: int, endTime: int)
    requires Fits(nodes, recs) && IsNode(recs, p) && p < |nodes| && s == nodes[p]
    requires Shows(nodes, view) && AllUntouched(nodes, recs, view, p)
    ensures WindowHolds(nodes, recs, [p], 1, startTime, endTime)
    ensures WindowTight(nodes, recs, p, startTime, endTime)
    decreases |recs| - Depth(recs, p), 1
  {
    startTime, endTime := s.time, s.Extent().End();
    ghost var order := Kids(recs, p);
    ChildrenLocated(nodes, recs, view, p);
    WindowOfNode(nodes, recs, p, order);
    var k := 0;
    while k < |s.children|
      invariant k <= |s.children| == |order|
      invariant WindowSoFar(nodes, recs, p, order, k, startTime, endTime)
    {
      ChildIsDeeper(recs, p, order, k);
      ChildAsBuilt(nodes, recs, view, order, k, p);
      startTime, endTime := Widen(s.children[k], nodes, recs, p, order, k, view, startTime, endTime);
      k := k + 1;
    }
    WindowOfSubtree(nodes, recs, p, order, startTime, endTime);
  }

  /** One child: the window grows as far as the subtree of the child needs. */
  method Widen(child: Span, ghost nodes: seq<Span>, ghost recs: seq<Rec>, ghost p: nat, ghost order: seq<nat>, ghost k: nat,
               ghost view: View, startTime: int, endTime: int)
    returns (first: int, last: int)
    requires Fits(nodes, recs) && IsNode(recs, p) && Lists(recs, p, order) && k < |order| && p < |nodes|
    requires IsNode(recs, order[k]) && Depth(recs, order[k]) == Depth(recs, p) + 1
    requires order[k] < |nodes| && child == nodes[order[k]]
    requires Shows(nodes, view) && AllUntouched(nodes, recs, view, order[k])
    requires WindowSoFar(nodes, recs, p, order, k, startTime, endTime)
    ensures WindowSoFar(nodes, recs, p, order, k + 1, first, last)
    decreases |recs| - Depth(recs, p), 0
  {
    var start, end := TreeStartEndTime(child, nodes, recs, order[k], view);
    first, last := startTime, endTime;
    if start < startTime {
      first := start;
    }
    if end > endTime {
      last := end;
    }
    WindowGrows(nodes, recs, p, order, k, startTime, endTime, start, end);
  }

  lemma ChildAsBuilt(nodes: seq<Span>, recs: seq<Rec>, view: View, order: seq<nat>, k: nat, p: nat)
    requires Fits(nodes, recs) && Sized(nodes, view)
    requires IsNode(recs, p) && Lists(recs, p, order) && k < |order|
    requires AllUntouched(nodes, recs, view, p)
    ensures AllUntouched(nodes, recs, view, order[k])
  {
    forall q: nat | q < |nodes| && Has(recs, order[k], q) ensures Untouched(nodes, recs, view, q) {
      assert SomeHas(recs, order, |order|, q);
      Subtree(recs, p, order, q);
    }
  }

  // ---------------------------------------------------------------------------
  // The page
  // ---------------------------------------------------------------------------

  /** The spans as they are read: with no children yet, and as much self time as time. */
  ghost predicate AsRead(spans: seq<Span>, before: Links)
    reads spans
  {
    Hold(spans, before) && Unlinked(before) && AllOwn(spans)
  }

  ghost function ViewOf(nodes: seq<Span>, recs: seq<Rec>, n: nat): (view: View)
    requires |recs| <= |nodes| && n <= |nodes|
    ensures |view.kids| == |view.self| == n
    ensures forall q :: 0 <= q < n ==> view.kids[q] == KidList(nodes, recs, q) && view.self[q] == nodes[q].duration
  {
    if n == 0 then View([], [])
    else
      var view := ViewOf(nodes, recs, n - 1);
      View(view.kids + [KidList(nodes, recs, n - 1)], view.self + [nodes[n - 1].duration])
  }

  /** What was put together shows the lists of children, and all time as self time. */
  lemma {:induction false} BuiltShows(nodes: seq<Span>, recs: seq<Rec>, start: Links, rootID: nat)
    requires |recs| <= |nodes| && start.Sized(|nodes|)
    requires forall p :: 0 <= p < |nodes| ==> start.kids[p] == []
    requires Hold(nodes, PutAll(start, nodes, Places(recs, |recs|), rootID, |recs|))
    requires forall p :: 0 <= p < |nodes| ==> nodes[p].durationSelf == nodes[p].duration
    ensures Shows(nodes, ViewOf(nodes, recs, |nodes|))
  {
    forall p | 0 <= p < |nodes| ensures nodes[p].children == KidList(nodes, recs, p) {
      PutAllGathers(start, nodes, Places(recs, |recs|), rootID, |recs|, p);
    }
  }

  /** What the page shows of a node: it lies in the window of the trace; its children are sorted
      by time; its self time is what the sweep leaves of its duration and, if the spans come in
      order of time, exactly the time in which no child runs. */
  ghost predicate Displayed(nodes: seq<Span>, recs: seq<Rec>, view: View, start: int, end: int, q: nat)
    requires |recs| <= |nodes| && Sized(nodes, view) && q < |nodes|
  {
    var extent, kids := nodes[q].Extent(), Extents(KidList(nodes, recs, q));
    && start <= nodes[q].time && extent.End() <= end
    && multiset(view.kids[q]) == multiset(KidList(nodes, recs, q)) && Chronological(view.kids[q])
    && view.self[q] == Sweep(extent, kids)
    && (Chronological(nodes[..|recs|]) ==> view.self[q] == nodes[q].duration - |Covered(extent, kids)|)
  }

  lemma FinishedIsDisplayed(nodes: seq<Span>, recs: seq<Rec>, view: View, start: int, end: int, q: nat)
    requires |recs| <= |nodes| && Sized(nodes, view) && q < |nodes| && Finished(nodes, recs, view, q)
    requires start <= nodes[q].time && nodes[q].Extent().End() <= end
    ensures Displayed(nodes, recs, view, start, end, q)
  {
    if Chronological(nodes[..|recs|]) {
      KidsChronological(nodes, recs, q);
      SelfTimeExact(nodes[q].Extent(), Extents(KidList(nodes, recs, q)));
    }
  }

  /** Every node was visited once and is displayed. */
  ghost predicate PageHolds(nodes: seq<Span>, recs: seq<Rec>, view: View, visits: seq<nat>, start: int, end: int)
    requires |recs| <= |nodes| && Sized(nodes, view)
  {
    && (forall q :: multiset(visits)[q] == if IsNode(recs, q) then 1 else 0)
    && (forall q: nat :: q < |nodes| && IsNode(recs, q) ==> Displayed(nodes, recs, view, start, end, q))
  }

  lemma {:induction false} WalkedIsPage(nodes: seq<Span>, recs: seq<Rec>, before: View, view: View, visits: seq<nat>, start: int, end: int)
    requires Fits(nodes, recs) && Sized(nodes, before) && Sized(nodes, view)
    requires Walked(nodes, recs, before, view, Root(recs)) && VisitsOnce(recs, visits, Root(recs))
    requires WindowHolds(nodes, recs, [Root(recs)], 1, start, end)
    ensures PageHolds(nodes, recs, view, visits, start, end)
  {
    forall q: nat ensures Has(recs, Root(recs), q) <==> IsNode(recs, q) {
      if IsNode(recs, q) { UnderRoot(recs, q); }
    }
    forall q: nat | q < |nodes| && IsNode(recs, q) ensures Displayed(nodes, recs, view, start, end, q) {
      assert Has(recs, [Root(recs)][0], q);
      assert SomeHas(recs, [Root(recs)], 1, q);
      FinishedIsDisplayed(nodes, recs, view, start, end, q);
    }
  }

  predicate Unlinked(before: Links) {
    forall i :: 0 <= i < |before.kids| ==> before.kids[i] == []
  }

  ghost predicate AllOwn(spans: seq<Span>)
    reads spans`durationSelf
  {
    forall i :: 0 <= i < |spans| ==> spans[i].durationSelf == spans[i].duration
  }

  lemma {:induction false} BuiltFits(spans: seq<Span>, root: Span, recs: seq<Rec>, before: Links)
    requires |recs| == |spans| && Acyclic(recs) && before.Sized(|spans|)
    requires Root(recs) < |spans| ==> root == spans[Root(recs)]
    requires Unlinked(before) && AllOwn(spans) && root.durationSelf == root.duration
    requires var nodes := Nodes(spans, root, recs);
      DistinctSpans(nodes) && Hold(nodes, PutAll(WithRoot(before, recs), nodes, Places(recs, |recs|), root.id, |recs|))
    ensures var nodes := Nodes(spans, root, recs); var view := ViewOf(nodes, recs, |nodes|);
      && Fits(nodes, recs) && nodes[Root(recs)] == root && Shows(nodes, view)
      && AllUntouched(nodes, recs, view, Root(recs))
  {
    var nodes := Nodes(spans, root, recs);
    AllReachIffAcyclic(recs);
    BuiltShows(nodes, recs, WithRoot(before, recs), root.id);
  }

  /** Each node holds the events that it came with and those whose owner it is, in input order. */
  ghost predicate EventsHeld(nodes: seq<Span>, recs: seq<Rec>, start: Links)
    requires |recs| <= |nodes| && start.Sized(|nodes|)
    reads nodes`events
  {
    forall p: nat :: p < |nodes| ==>
      nodes[p].events == Gathered(start.events[p], nodes, Places(recs, |recs|), EventOf(p), |recs|)
  }

  lemma {:induction false} BuiltEvents(nodes: seq<Span>, recs: seq<Rec>, start: Links, rootID: nat)
    requires |recs| <= |nodes| && start.Sized(|nodes|)
    requires Hold(nodes, PutAll(start, nodes, Places(recs, |recs|), rootID, |recs|))
    ensures EventsHeld(nodes, recs, start)
  {
    forall p: nat | p < |nodes|
      ensures nodes[p].events == Gathered(start.events[p], nodes, Places(recs, |recs|), EventOf(p), |recs|)
    {
      PutAllGathers(start, nodes, Places(recs, |recs|), rootID, |recs|, p);
    }
  }

  /** The tree as the walk finds it. */
  method BuildTree(spans: seq<Span>, fakeID: nat, ghost recs: seq<Rec>, ghost before: Links)
    returns (root: Span, numSpan: nat, ghost nodes: seq<Span>, ghost built: View)
    requires spans != [] && DistinctSpans(spans) && RecordedAs(spans, recs) && AsRead(spans, before)
    requires DistinctIDs(recs) && Acyclic(recs)
    modifies spans`children, spans`events, spans`parentID
    ensures numSpan == CountLinked(recs, |recs|) + 1
    ensures if Root(recs) < |spans| then root == spans[Root(recs)]
            else fresh(root) && root.id == fakeID && root.time == spans[0].time && root.duration == 0
    ensures nodes == Nodes(spans, root, recs) && Fits(nodes, recs) && nodes[Root(recs)] == root
    ensures Shows(nodes, built) && AllUntouched(nodes, recs, built, Root(recs))
    ensures WithRoot(before, recs).Sized(|nodes|) && EventsHeld(nodes, recs, WithRoot(before, recs))
  {
    root, numSpan := BuildSpanTree(spans, fakeID, recs, before);
    nodes := Nodes(spans, root, recs);
    built := ViewOf(nodes, recs, |nodes|);
    BuiltFits(spans, root, recs, before);
    BuiltEvents(nodes, recs, WithRoot(before, recs), root.id);
  }

  lemma NodesAreSpans(spans: seq<Span>, root: Span, recs: seq<Rec>)
    ensures forall s :: s in Nodes(spans, root, recs) ==> s in spans || s == root
  {
  }

  /** The window, then the walk. */
  method ShowNodes(root: Span, ghost nodes: seq<Span>, ghost recs: seq<Rec>, ghost built: View)
    returns (time: int, duration: int, ghost view: View, ghost visits: seq<nat>)
    requires Fits(nodes, recs) && nodes[Root(recs)] == root
    requires Shows(nodes, built) && AllUntouched(nodes, recs, built, Root(recs))
    modifies nodes`children, nodes`durationSelf
    ensures Shows(nodes, view) && PageHolds(nodes, recs, view, visits, time, time + duration)
  {
    var end;
    time, end := TreeStartEndTime(root, nodes, recs, Root(recs), built);
    duration := end - time;
    view, visits := Walk(root, nodes, recs, Root(recs), built);
    WalkedIsPage(nodes, recs, built, view, visits, time, end);
  }

  /** The window, then the walk, which leaves the events where they are. */
  method ShowTree(root: Span, ghost spans: seq<Span>, ghost recs: seq<Rec>, ghost built: View, ghost start: Links)
    returns (time: int, duration: int, ghost view: View, ghost visits: seq<nat>)
    requires var nodes := Nodes(spans, root, recs);
      && Fits(nodes, recs) && nodes[Root(recs)] == root
      && Shows(nodes, built) && AllUntouched(nodes, recs, built, Root(recs))
      && start.Sized(|nodes|) && EventsHeld(nodes, recs, start)
    modifies spans`children, spans`durationSelf, root`children, root`durationSelf
    ensures var nodes := Nodes(spans, root, recs);
      && Shows(nodes, view) && PageHolds(nodes, recs, view, visits, time, time + duration)
      && EventsHeld(nodes, recs, start)
  {
    ghost var nodes := Nodes(spans, root, recs);
    NodesAreSpans(spans, root, recs);
    time, duration, view, visits := ShowNodes(root, nodes, recs, built);
  }

  /** The whole page, for spans with distinct ids and no cycle of parents. */
  method ShowTrace(spans: seq<Span>, fakeID: nat, ghost recs: seq<Rec>, ghost before: Links)
    returns (root: Span, numSpan: nat, time: int, duration: int, ghost view: View, ghost visits: seq<nat>)
    requires spans != [] && DistinctSpans(spans) && RecordedAs(spans, recs) && AsRead(spans, before)
    requires DistinctIDs(recs) && Acyclic(recs)
    modifies spans
    ensures numSpan == CountLinked(recs, |recs|) + 1
    ensures if Root(recs) < |spans| then root == spans[Root(recs)]
            else fresh(root) && root.id == fakeID && root.time == spans[0].time && root.duration == 0
    ensures WithRoot(before, recs).Sized(|Nodes(spans, root, recs)|)
    ensures EventsHeld(Nodes(spans, root, recs), recs, WithRoot(before, recs))
    ensures Shows(Nodes(spans, root, recs), view)
    ensures PageHolds(Nodes(spans, root, recs), recs, view, visits, time, time + duration)
  {
    ghost var nodes, built;
    root, numSpan, nodes, built := BuildTree(spans, fakeID, recs, before);
    time, duration, view, visits := ShowTree(root, spans, recs, built, WithRoot(before, recs));
  }
}
