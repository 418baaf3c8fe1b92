/** The tree that a flat list of spans stands for: a relation on positions in the list. */
module TraceTree {
  import opened Basics
  import opened SelfTime

  /** What the tree builder looks at. */
  datatype Rec = Rec(id: nat, parentID: nat, isEvent: bool)

  predicate DistinctIDs(recs: seq<Rec>) {
    forall i, j :: 0 <= i < j < |recs| ==> recs[i].id != recs[j].id
  }

  // ---------------------------------------------------------------------------
  // The tree as a relation on positions
  // ---------------------------------------------------------------------------

  /** A span that may have children of its own in the tree: one that names a parent. */
  predicate Linked(recs: seq<Rec>, i: nat)
    requires i < |recs|
  {
    !recs[i].isEvent && recs[i].parentID != 0
  }

  /** The position of the linked span with the id, or the length. */
  function Lookup(recs: seq<Rec>, id: nat): (i: nat)
    ensures i <= |recs|
    ensures i < |recs| ==> Linked(recs, i) && recs[i].id == id
  {
    if recs == [] then 0
    else
      var last := |recs| - 1;
      if Linked(recs, last) && recs[last].id == id then last
      else
        var i := Lookup(recs[..last], id);
        if i == last then |recs| else i
  }

  /** The position of the root: the last span without a parent, or the length if there is
      none and a root is made up. */
  function Root(recs: seq<Rec>): (i: nat)
    ensures i <= |recs|
    ensures i < |recs| ==> !recs[i].isEvent && recs[i].parentID == 0
  {
    if recs == [] then 0
    else
      var last := |recs| - 1;
      if !recs[last].isEvent && recs[last].parentID == 0 then last
      else
        var i := Root(recs[..last]);
        if i == last then |recs| else i
  }

  /** The spans that are attached below another one: all but events and the root. */
  predicate Parentless(recs: seq<Rec>, i: nat)
    requires i < |recs|
  {
    !recs[i].isEvent && recs[i].parentID == 0
  }

  /** The root is the last span without a parent; there is none if no span is without a parent. */
  lemma {:induction false} RootIsLast(recs: seq<Rec>, i: nat)
    requires i < |recs| && Parentless(recs, i)
    ensures i <= Root(recs) < |recs|
  {
    if i < |recs| - 1 { RootIsLast(recs[..|recs| - 1], i); }
  }

  /** The span that is found for an id is the last one that has it and names a parent, if there is one. */
  lemma {:induction false} LookupIsLast(recs: seq<Rec>, id: nat, i: nat)
    requires i < |recs| && Linked(recs, i) && recs[i].id == id
    ensures i <= Lookup(recs, id) < |recs|
  {
    if i < |recs| - 1 {
      var prefix := recs[..|recs| - 1];
      assert Linked(prefix, i);
      LookupIsLast(prefix, id, i);
    }
  }

  predicate Attached(recs: seq<Rec>, i: nat) {
    i < |recs| && !recs[i].isEvent && i != Root(recs)
  }

  /** The owner of an id that some span or event names as its parent. */
  function Owner(recs: seq<Rec>, parentID: nat): (p: nat) {
    var i := Lookup(recs, parentID);
    if i < |recs| then i else Root(recs)
  }

  /** Where a span is attached: below its own parent if that is a linked span, else below the
      root. */
  function ParentOf(recs: seq<Rec>, i: nat): (p: nat)
    requires Attached(recs, i)
    ensures p == Root(recs) || Attached(recs, p)
  {
    if recs[i].parentID == 0 then Root(recs) else Owner(recs, recs[i].parentID)
  }

  predicate IsNode(recs: seq<Rec>, i: nat) {
    i == Root(recs) || Attached(recs, i)
  }

  // ---------------------------------------------------------------------------
  // Cycles and reachability
  // ---------------------------------------------------------------------------

  /** `k` parent steps lead from `i` to `j`, without passing the root. */
  predicate StepsTo(recs: seq<Rec>, i: nat, k: nat, j: nat)
    decreases k
  {
    if k == 0 then i == j else Attached(recs, i) && StepsTo(recs, ParentOf(recs, i), k - 1, j)
  }

  ghost predicate Acyclic(recs: seq<Rec>) {
    forall i, k: nat :: k > 0 ==> !StepsTo(recs, i, k, i)
  }

  /** At most `fuel` parent steps lead from `i` to the root. */
  predicate ReachesIn(recs: seq<Rec>, i: nat, fuel: nat)
    decreases fuel
  {
    i == Root(recs) || (fuel > 0 && Attached(recs, i) && ReachesIn(recs, ParentOf(recs, i), fuel - 1))
  }

  ghost predicate AllReach(recs: seq<Rec>) {
    forall i :: Attached(recs, i) ==> ReachesIn(recs, i, |recs|)
  }

  lemma {:induction false} StepsSnoc(recs: seq<Rec>, i: nat, k: nat, j: nat)
    requires StepsTo(recs, i, k, j) && Attached(recs, j)
    ensures StepsTo(recs, i, k + 1, ParentOf(recs, j))
    decreases k
  {
    if k > 0 { StepsSnoc(recs, ParentOf(recs, i), k - 1, j); }
  }

  ghost predicate Above(recs: seq<Rec>, p: nat, i: nat) {
    exists k: nat :: k > 0 && StepsTo(recs, p, k, i)
  }

  ghost function Positions(n: nat): (s: set<nat>)
    ensures |s| == n
    ensures forall p: nat :: p in s <==> p < n
  {
    if n == 0 then {} else Positions(n - 1) + {n - 1}
  }

  /** Without cycles, the parent steps from a span can only pass spans not passed before. */
  lemma {:induction false} ClimbsToRoot(recs: seq<Rec>, i: nat, passed: set<nat>)
    requires Acyclic(recs) && IsNode(recs, i)
    requires forall p :: p in passed ==> p < |recs| && Above(recs, p, i)
    ensures |passed| <= |recs| && ReachesIn(recs, i, |recs| - |passed|)
    decreases |recs| - |passed|
  {
    SubsetSize(passed, Positions(|recs|));
    if i != Root(recs) {
      assert i !in passed;
      SubsetSize(passed + {i}, Positions(|recs|));
      var parent := ParentOf(recs, i);
      forall p | p in passed + {i} ensures p < |recs| && Above(recs, p, parent) {
        if p == i {
          assert StepsTo(recs, i, 1, parent);
        } else {
          var k: nat :| k > 0 && StepsTo(recs, p, k, i);
          StepsSnoc(recs, p, k, i);
        }
      }
      ClimbsToRoot(recs, parent, passed + {i});
    }
  }

  lemma {:induction false} StepsUseFuel(recs: seq<Rec>, i: nat, fuel: nat, k: nat, j: nat)
    requires ReachesIn(recs, i, fuel) && StepsTo(recs, i, k, j)
    ensures k <= fuel && ReachesIn(recs, j, fuel - k)
    decreases k
  {
    if k > 0 { StepsUseFuel(recs, ParentOf(recs, i), fuel - 1, k - 1, j); }
  }

  lemma {:induction false} ReachingIsAcyclic(recs: seq<Rec>, i: nat, fuel: nat, k: nat)
    requires ReachesIn(recs, i, fuel) && k > 0
    ensures !StepsTo(recs, i, k, i)
    decreases fuel
  {
    if StepsTo(recs, i, k, i) {
      StepsUseFuel(recs, i, fuel, k, i);
      ReachingIsAcyclic(recs, i, fuel - k, k);
    }
  }

  /** Every attached span hangs below the root if and only if the parent relation has no
      cycle. */
  lemma AllReachIffAcyclic(recs: seq<Rec>)
    ensures AllReach(recs) <==> Acyclic(recs)
  {
    if Acyclic(recs) {
      forall i | Attached(recs, i) ensures ReachesIn(recs, i, |recs|) { ClimbsToRoot(recs, i, {}); }
    }
    if AllReach(recs) {
      forall i, k: nat | k > 0 ensures !StepsTo(recs, i, k, i) {
        if Attached(recs, i) { ReachingIsAcyclic(recs, i, |recs|, k); }
      }
    }
  }

  // ---------------------------------------------------------------------------
  // Children and subtrees
  // ---------------------------------------------------------------------------

  /** The children of `p` among the first `n` spans, in input order. */
  function KidsIn(recs: seq<Rec>, p: nat, n: nat): (kids: seq<nat>)
    requires n <= |recs|
    ensures forall k :: 0 <= k < |kids| ==> kids[k] < n
  {
    if n == 0 then []
    else if Attached(recs, n - 1) && ParentOf(recs, n - 1) == p then KidsIn(recs, p, n - 1) + [n - 1]
    else KidsIn(recs, p, n - 1)
  }

  lemma {:induction false} KidsInFacts(recs: seq<Rec>, p: nat, n: nat)
    requires n <= |recs|
    ensures forall c: nat :: c in KidsIn(recs, p, n) <==> c < n && Attached(recs, c) && ParentOf(recs, c) == p
    ensures forall a, b :: 0 <= a < b < |KidsIn(recs, p, n)| ==> KidsIn(recs, p, n)[a] < KidsIn(recs, p, n)[b]
  {
    if n > 0 { KidsInFacts(recs, p, n - 1); }
  }

  function Kids(recs: seq<Rec>, p: nat): seq<nat> {
    KidsIn(recs, p, |recs|)
  }

  ghost function DepthIn(recs: seq<Rec>, i: nat, fuel: nat): (d: nat)
    requires ReachesIn(recs, i, fuel)
    ensures d <= fuel
    ensures d == 0 <==> i == Root(recs)
    decreases fuel
  {
    if i == Root(recs) then 0 else 1 + DepthIn(recs, ParentOf(recs, i), fuel - 1)
  }

  lemma {:induction false} DepthAnyFuel(recs: seq<Rec>, i: nat, fuel: nat)
    requires ReachesIn(recs, i, fuel)
    ensures ReachesIn(recs, i, fuel + 1) && DepthIn(recs, i, fuel + 1) == DepthIn(recs, i, fuel)
    decreases fuel
  {
    if i != Root(recs) { DepthAnyFuel(recs, ParentOf(recs, i), fuel - 1); }
  }

  /** How many parent steps a node is away from the root. */
  ghost function Depth(recs: seq<Rec>, i: nat): (d: nat)
    requires AllReach(recs) && IsNode(recs, i)
    ensures d <= |recs|
    ensures d == 0 <==> i == Root(recs)
  {
    DepthIn(recs, i, |recs|)
  }

  lemma KidDepth(recs: seq<Rec>, c: nat)
    requires AllReach(recs) && Attached(recs, c)
    ensures Depth(recs, c) == Depth(recs, ParentOf(recs, c)) + 1
  {
    DepthAnyFuel(recs, ParentOf(recs, c), |recs| - 1);
  }

  /** `i` lies in the subtree of `p`. */
  ghost predicate Under(recs: seq<Rec>, p: nat, i: nat)
    requires AllReach(recs) && IsNode(recs, i)
    decreases Depth(recs, i)
  {
    i == p || (i != Root(recs) && (KidDepth(recs, i); Under(recs, p, ParentOf(recs, i))))
  }

  lemma {:induction false} UnderRoot(recs: seq<Rec>, i: nat)
    requires AllReach(recs) && IsNode(recs, i)
    ensures Under(recs, Root(recs), i)
    decreases Depth(recs, i)
  {
    if i != Root(recs) {
      KidDepth(recs, i);
      UnderRoot(recs, ParentOf(recs, i));
    }
  }

  lemma {:induction false} UnderIsDeeper(recs: seq<Rec>, p: nat, i: nat)
    requires AllReach(recs) && IsNode(recs, i) && IsNode(recs, p) && Under(recs, p, i)
    ensures Depth(recs, p) <= Depth(recs, i)
    ensures Depth(recs, p) == Depth(recs, i) ==> p == i
    decreases Depth(recs, i)
  {
    if i != p {
      KidDepth(recs, i);
      UnderIsDeeper(recs, p, ParentOf(recs, i));
    }
  }

  /** The child of `p` whose subtree holds `i`. */
  lemma {:induction false} KidToward(recs: seq<Rec>, p: nat, i: nat) returns (c: nat)
    requires AllReach(recs) && IsNode(recs, i) && Under(recs, p, i) && i != p
    ensures Attached(recs, c) && ParentOf(recs, c) == p && Under(recs, c, i)
    decreases Depth(recs, i)
  {
    KidDepth(recs, i);
    if ParentOf(recs, i) == p {
      c := i;
    } else {
      c := KidToward(recs, p, ParentOf(recs, i));
    }
  }

  lemma {:induction false} UnderParent(recs: seq<Rec>, c: nat, i: nat)
    requires AllReach(recs) && IsNode(recs, i) && Attached(recs, c) && Under(recs, c, i)
    ensures Under(recs, ParentOf(recs, c), i)
    decreases Depth(recs, i)
  {
    KidDepth(recs, c);
    if i != c {
      KidDepth(recs, i);
      UnderParent(recs, c, ParentOf(recs, i));
    } else {
      assert Under(recs, ParentOf(recs, c), ParentOf(recs, c));
    }
  }

  /** The subtrees of two nodes of the same depth have nothing in common. */
  lemma {:induction false} SiblingsApart(recs: seq<Rec>, c: nat, d: nat, i: nat)
    requires AllReach(recs) && IsNode(recs, i) && IsNode(recs, c) && IsNode(recs, d)
    requires Depth(recs, c) == Depth(recs, d) && Under(recs, c, i) && Under(recs, d, i)
    ensures c == d
    decreases Depth(recs, i)
  {
    UnderIsDeeper(recs, c, i);
    UnderIsDeeper(recs, d, i);
    if i != c && i != d {
      KidDepth(recs, i);
      SiblingsApart(recs, c, d, ParentOf(recs, i));
    }
  }

  // ---------------------------------------------------------------------------
  // Counting
  // ---------------------------------------------------------------------------

  /** The number of linked spans among the first `n`. */
  function CountLinked(recs: seq<Rec>, n: nat): nat
    requires n <= |recs|
  {
    if n == 0 then 0 else CountLinked(recs, n - 1) + if Linked(recs, n - 1) then 1 else 0
  }

  /** The number of spans without a parent among the first `n`. */
  function CountParentless(recs: seq<Rec>, n: nat): nat
    requires n <= |recs|
  {
    if n == 0 then 0
    else CountParentless(recs, n - 1) + if !recs[n - 1].isEvent && recs[n - 1].parentID == 0 then 1 else 0
  }

  /** The nodes of the tree; `|recs|` stands for a root that was made up. */
  ghost function NodeSet(recs: seq<Rec>): (nodes: set<nat>)
    ensures forall i: nat :: i in nodes <==> IsNode(recs, i)
  {
    set i: nat | i in Positions(|recs| + 1) && IsNode(recs, i)
  }

  ghost function SpansIn(recs: seq<Rec>, n: nat): (s: set<nat>)
    requires n <= |recs|
    ensures forall i: nat :: i in s <==> i < n && !recs[i].isEvent
  {
    if n == 0 then {}
    else if recs[n - 1].isEvent then SpansIn(recs, n - 1) else SpansIn(recs, n - 1) + {n - 1}
  }

  lemma OneMore(s: set<nat>, i: nat)
    requires i !in s
    ensures |s + {i}| == |s| + 1
  {
  }

  lemma {:induction false} SpansCount(recs: seq<Rec>, n: nat)
    requires n <= |recs|
    ensures |SpansIn(recs, n)| == CountLinked(recs, n) + CountParentless(recs, n)
  {
    if n > 0 {
      var rest := SpansIn(recs, n - 1);
      SpansCount(recs, n - 1);
      OneMore(rest, n - 1);
      assert SpansIn(recs, n) == if recs[n - 1].isEvent then rest else rest + {n - 1};
      assert Linked(recs, n - 1) <==> !recs[n - 1].isEvent && recs[n - 1].parentID != 0;
    }
  }

  lemma {:induction false} NoRootNoParentless(recs: seq<Rec>)
    ensures Root(recs) == |recs| <==> CountParentless(recs, |recs|) == 0
  {
    if recs != [] {
      var prefix := recs[..|recs| - 1];
      NoRootNoParentless(prefix);
      ParentlessOfPrefix(recs, |prefix|);
    }
  }

  lemma {:induction false} ParentlessOfPrefix(recs: seq<Rec>, n: nat)
    requires n < |recs|
    ensures CountParentless(recs[..|recs| - 1], n) == CountParentless(recs, n)
  {
    if n > 0 { ParentlessOfPrefix(recs, n - 1); }
  }

  lemma {:induction false} SpansAreNodes(recs: seq<Rec>)
    requires Root(recs) < |recs|
    ensures NodeSet(recs) == SpansIn(recs, |recs|)
  {
    forall i: nat ensures i in NodeSet(recs) <==> i in SpansIn(recs, |recs|) { NodeWithRoot(recs, i); }
  }

  lemma {:induction false} RootMadeUp(recs: seq<Rec>)
    requires Root(recs) == |recs|
    ensures |NodeSet(recs)| == |SpansIn(recs, |recs|)| + 1
  {
    var spans := SpansIn(recs, |recs|);
    forall i: nat ensures i in NodeSet(recs) <==> i in spans || i == |recs| { NodeWithoutRoot(recs, i); }
    assert NodeSet(recs) == spans + {|recs|} && |recs| !in spans;
  }

  /** The reported number of spans, one more than the number of linked spans, is the number of
      nodes of the tree exactly when at most one span has no parent; otherwise it is too
      small. */
  lemma {:induction false} CountExactIff(recs: seq<Rec>)
    ensures CountLinked(recs, |recs|) + 1 <= |NodeSet(recs)|
    ensures CountLinked(recs, |recs|) + 1 == |NodeSet(recs)| <==> CountParentless(recs, |recs|) <= 1
  {
    NoRootNoParentless(recs);
    SpansCount(recs, |recs|);
    if Root(recs) < |recs| {
      SpansAreNodes(recs);
    } else {
      RootMadeUp(recs);
    }
  }

  /** Of two spans without a parent one is not counted. */
  lemma TwoParentlessMiscounted() returns (recs: seq<Rec>)
    ensures DistinctIDs(recs) && CountLinked(recs, |recs|) + 1 == 1 && |NodeSet(recs)| == 2
  {
    recs := [Rec(1, 0, false), Rec(2, 0, false)];
    assert CountLinked(recs, 1) == CountLinked(recs, 0) == 0;
    assert recs[..1] == [recs[0]] && Root(recs) == 1;
    forall i: nat ensures i in NodeSet(recs) <==> i in {0, 1} { NodeWithRoot(recs, i); }
    assert NodeSet(recs) == {0, 1};
  }

  lemma {:induction false} NodeWithRoot(recs: seq<Rec>, i: nat)
    requires Root(recs) < |recs|
    ensures IsNode(recs, i) <==> i < |recs| && !recs[i].isEvent
  {
  }

  lemma {:induction false} NodeWithoutRoot(recs: seq<Rec>, i: nat)
    requires Root(recs) == |recs|
    ensures IsNode(recs, i) <==> i == |recs| || (i < |recs| && !recs[i].isEvent)
  {
  }

  /** With cycles, some span hangs below no node: the walk from the root misses it. */
  lemma CycleLosesSpans() returns (recs: seq<Rec>)
    ensures DistinctIDs(recs) && Attached(recs, 1) && !ReachesIn(recs, 1, |recs|)
  {
    recs := [Rec(1, 0, false), Rec(2, 2, false)];
    assert recs[..1][..0] == [] && recs[..1] == [recs[0]];
    assert Root(recs) == 0 by { assert Root(recs[..1]) == 0; }
    assert Lookup(recs, 2) == 1;
    assert ParentOf(recs, 1) == 1;
    assert !ReachesIn(recs, 1, 0);
    assert !ReachesIn(recs, 1, 1);
  }
}
