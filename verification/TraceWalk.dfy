/** Building the span tree of a trace and walking it. */
module TraceWalk {
  import opened SelfTime
  import opened TraceTree

  class Span {
    const id: nat
    const isEvent: bool
    const time: int
    const duration: int
    var parentID: nat
    var children: seq<Span>
    var events: seq<Span>  // the events, in place of the records made from them
    var durationSelf: int

    constructor (id: nat, parentID: nat, isEvent: bool, time: int, duration: int)
      ensures this.id == id && this.parentID == parentID && this.isEvent == isEvent
      ensures this.time == time && this.duration == duration && durationSelf == duration
      ensures children == [] && events == []
    {
      this.id, this.parentID, this.isEvent := id, parentID, isEvent;
      this.time, this.duration, durationSelf := time, duration, duration;
      children, events := [], [];
    }

    function Extent(): Interval {
      Interval(time, duration)
    }

    method AddChild(child: Span)
      modifies this`children
      ensures children == old(children) + [child]
    {
      children := children + [child];
    }

    method AddEvent(event: Span)
      modifies this`events
      ensures events == old(events) + [event]
    {
      events := events + [event];
    }

    method UpdateDurationSelf(child: Span, prevEndTime: int)
      modifies this`durationSelf
      ensures durationSelf == Reduced(old(durationSelf), Extent(), child.Extent(), prevEndTime)
    {
      if child.time > Extent().End() { return; }
      var start, end := Max(child.time, prevEndTime), Min(child.Extent().End(), Extent().End());
      if end > start {
        durationSelf := if end - start < durationSelf then durationSelf - (end - start) else 0;
      }
    }
  }

  /** `recs` are the records of the spans as they are now. */
  ghost predicate RecordedAs(spans: seq<Span>, recs: seq<Rec>)
    reads spans`parentID
  {
    |recs| == |spans| && forall i :: 0 <= i < |spans| ==> recs[i] == Rec(spans[i].id, spans[i].parentID, spans[i].isEvent)
  }

  predicate DistinctSpans(spans: seq<Span>) {
    forall i, j :: 0 <= i < j < |spans| ==> spans[i] != spans[j]
  }

  /** Where the builder puts a span or an event. */
  datatype Place = Top | Below(p: nat) | EventOf(p: nat)

  function PlaceOf(recs: seq<Rec>, i: nat): Place
    requires i < |recs|
  {
    if recs[i].isEvent then EventOf(Owner(recs, recs[i].parentID))
    else if i == Root(recs) then Top
    else Below(ParentOf(recs, i))
  }

  function Places(recs: seq<Rec>, n: nat): (places: seq<Place>)
    requires n <= |recs|
    ensures |places| == n
  {
    if n == 0 then [] else Places(recs, n - 1) + [PlaceOf(recs, n - 1)]
  }

  lemma {:induction false} PlaceAt(recs: seq<Rec>, n: nat, i: nat)
    requires i < n <= |recs|
    ensures Places(recs, n)[i] == PlaceOf(recs, i)
  {
    if i < n - 1 { PlaceAt(recs, n - 1, i); }
  }

  /** `start` and after it those of the first `n` spans that go to the place, in input order. */
  function Gathered(start: seq<Span>, spans: seq<Span>, places: seq<Place>, place: Place, n: nat): (there: seq<Span>)
    requires n <= |places| <= |spans|
  {
    if n == 0 then start
    else
      var there := Gathered(start, spans, places, place, n - 1);
      if places[n - 1] == place then there + [spans[n - 1]] else there
  }

  /** Each span and each event is gathered at its own place, once, and at no other. */
  lemma {:induction false} GatheredOnce(spans: seq<Span>, places: seq<Place>, place: Place, n: nat, i: nat)
    requires n <= |places| <= |spans| && i < |places| && DistinctSpans(spans)
    ensures multiset(Gathered([], spans, places, place, n))[spans[i]] == if i < n && places[i] == place then 1 else 0
  {
    if n > 0 { GatheredOnce(spans, places, place, n - 1, i); }
  }

  /** Each event is attached to exactly one node of the tree, its owner. */
  lemma {:induction false} EventAttachedOnce(spans: seq<Span>, recs: seq<Rec>, i: nat, p: nat)
    requires i < |recs| <= |spans| && recs[i].isEvent && DistinctSpans(spans)
    ensures IsNode(recs, Owner(recs, recs[i].parentID))
    ensures multiset(Gathered([], spans, Places(recs, |recs|), EventOf(p), |recs|))[spans[i]]
         == if p == Owner(recs, recs[i].parentID) then 1 else 0
  {
    PlaceAt(recs, |recs|, i);
    GatheredOnce(spans, Places(recs, |recs|), EventOf(p), |recs|, i);
  }

  // ---------------------------------------------------------------------------
  // Building the tree
  // ---------------------------------------------------------------------------

  lemma RootStep(recs: seq<Rec>, i: nat)
    requires i < |recs|
    ensures var r := Root(recs[..i]);
      Root(recs[..i + 1]) == if !recs[i].isEvent && recs[i].parentID == 0 then i else if r == i then i + 1 else r
  {
    var longer := recs[..i + 1];
    assert longer[..i] == recs[..i] && longer[i] == recs[i] && |longer| == i + 1;
  }

  lemma {:induction false} LookupStep(recs: seq<Rec>, i: nat, id: nat)
    requires i < |recs|
    ensures var r := Lookup(recs[..i], id);
      Lookup(recs[..i + 1], id) == if Linked(recs, i) && recs[i].id == id then i else if r == i then i + 1 else r
  {
    var longer := recs[..i + 1];
    assert longer[..i] == recs[..i] && longer[i] == recs[i] && |longer| == i + 1;
    assert Linked(longer, i) == Linked(recs, i);
  }

  /** The map holds the linked spans of `recs` by id. */
  ghost predicate Indexes(m: map<nat, Span>, spans: seq<Span>, recs: seq<Rec>)
    requires |recs| <= |spans|
  {
    && (forall id: nat :: id in m <==> Lookup(recs, id) < |recs|)
    && (forall id: nat :: id in m ==> m[id] == spans[Lookup(recs, id)])
  }

  lemma IndexStep(m: map<nat, Span>, spans: seq<Span>, recs: seq<Rec>, i: nat)
    requires i < |recs| <= |spans| && Indexes(m, spans, recs[..i]) && DistinctIDs(recs)
    requires spans[i].id == recs[i].id && |m| == CountLinked(recs, i)
    ensures var after := if !recs[i].isEvent && recs[i].parentID != 0 then m[recs[i].id := spans[i]] else m;
      Indexes(after, spans, recs[..i + 1]) && |after| == CountLinked(recs, i + 1)
  {
    IndexGrows(m, spans, recs, i);
    NotYetIndexed(m, spans, recs, i);
    NewKey(m, recs[i].id, spans[i]);
  }

  lemma NewKey<K, V>(m: map<K, V>, k: K, v: V)
    requires k !in m
    ensures |m[k := v]| == |m| + 1
  {
    assert m[k := v].Keys == m.Keys + {k};
  }

  lemma IndexGrows(m: map<nat, Span>, spans: seq<Span>, recs: seq<Rec>, i: nat)
    requires i < |recs| <= |spans| && Indexes(m, spans, recs[..i]) && spans[i].id == recs[i].id
    ensures Indexes(if Linked(recs, i) then m[recs[i].id := spans[i]] else m, spans, recs[..i + 1])
  {
    var after := if Linked(recs, i) then m[recs[i].id := spans[i]] else m;
    forall id: nat
      ensures id in after <==> Lookup(recs[..i + 1], id) < i + 1
      ensures id in after ==> after[id] == spans[Lookup(recs[..i + 1], id)]
    {
      LookupStep(recs, i, id);
    }
  }

  lemma NotYetIndexed(m: map<nat, Span>, spans: seq<Span>, recs: seq<Rec>, i: nat)
    requires i < |recs| <= |spans| && Indexes(m, spans, recs[..i]) && DistinctIDs(recs)
    ensures recs[i].id !in m
  {
    NoneBefore(recs, i, recs[i].id);
  }

  lemma {:induction false} NoneBefore(recs: seq<Rec>, n: nat, id: nat)
    requires n <= |recs| && forall k :: 0 <= k < n ==> recs[k].id != id
    ensures Lookup(recs[..n], id) == n
  {
    if n > 0 {
      NoneBefore(recs, n - 1, id);
      LookupStep(recs, n - 1, id);
    }
  }

  /** First pass: the root and the map from ids to linked spans. */
  method IndexSpans(spans: seq<Span>, ghost recs: seq<Rec>) returns (root: Span?, m: map<nat, Span>)
    requires RecordedAs(spans, recs) && DistinctIDs(recs)
    ensures root == if Root(recs) < |spans| then spans[Root(recs)] else null
    ensures Indexes(m, spans, recs)
    ensures |m| == CountLinked(recs, |spans|)
  {
    root, m := null, map[];
    ghost var at := 0;
    assert recs[..|spans|] == recs;
    for i := 0 to |spans|
      invariant at == Root(recs[..i])
      invariant root == if at < i then spans[at] else null
      invariant Indexes(m, spans, recs[..i])
      invariant |m| == CountLinked(recs, i)
    {
      var s := spans[i];
      assert recs[i] == Rec(s.id, s.parentID, s.isEvent);
      RootStep(recs, i);
      IndexStep(m, spans, recs, i);
      at := Root(recs[..i + 1]);
      if s.isEvent {
        continue;
      }
      if s.parentID == 0 {
        root := s;
        continue;
      }
      m := m[s.id := s];
    }
  }

  /** What the first pass finds, in the words of the spans themselves. */
  lemma {:induction false} IndexedBySpans(spans: seq<Span>, recs: seq<Rec>, m: map<nat, Span>)
    requires RecordedAs(spans, recs) && Indexes(m, spans, recs)
    ensures Root(recs) < |spans| ==> spans[Root(recs)].parentID == 0 && !spans[Root(recs)].isEvent
    ensures Root(recs) == |spans| ==> forall i :: 0 <= i < |spans| ==> spans[i].parentID != 0 || spans[i].isEvent
    ensures forall id :: id in m ==> m[id].id == id && m[id].parentID != 0 && !m[id].isEvent
  {
    forall i | 0 <= i < |spans| && spans[i].parentID == 0 && !spans[i].isEvent ensures Root(recs) < |spans| {
      assert recs[i].parentID == 0;
      RootIsLast(recs, i);
    }
    forall id | id in m ensures m[id].id == id && m[id].parentID != 0 && !m[id].isEvent {
      assert recs[Lookup(recs, id)].id == id;
    }
  }

  /** The spans, and after them the root if it had to be made up. */
  function Nodes(spans: seq<Span>, root: Span, recs: seq<Rec>): (nodes: seq<Span>)
    ensures |spans| <= |nodes|
    ensures forall i :: 0 <= i < |spans| ==> nodes[i] == spans[i]
  {
    if Root(recs) < |recs| then spans else spans + [root]
  }

  /** What the builder may change of each node. */
  datatype Links = Links(kids: seq<seq<Span>>, events: seq<seq<Span>>, parents: seq<nat>) {
    predicate Sized(n: nat) {
      |kids| == |events| == |parents| == n
    }

    /** The span at position `i` put at its place. */
    function Put(i: nat, s: Span, place: Place, rootID: nat): Links
      requires Sized(|kids|) && i < |kids|
    {
      if place.Top? || place.p >= |kids| then this
      else if place.EventOf? then this.(events := events[place.p := events[place.p] + [s]])
      else
        Links(kids[place.p := kids[place.p] + [s]], events, if parents[i] == 0 then parents[i := rootID] else parents)
    }
  }

  ghost predicate Hold(nodes: seq<Span>, links: Links)
    reads nodes`children, nodes`events, nodes`parentID
  {
    && links.Sized(|nodes|)
    && forall p :: 0 <= p < |nodes| ==>
      nodes[p].children == links.kids[p] && nodes[p].events == links.events[p] && nodes[p].parentID == links.parents[p]
  }

  /** What the builder looks up for a span leads to its place. */
  predicate LeadsTo(rec: Rec, root: Span, m: map<nat, Span>, nodes: seq<Span>, place: Place) {
    var owner := if rec.parentID in m then m[rec.parentID] else root;
    if rec.isEvent then place.EventOf? && place.p < |nodes| && nodes[place.p] == owner
    else if rec.parentID == 0 then
      if rec.id == root.id then place == Top else place.Below? && place.p < |nodes| && nodes[place.p] == root
    else place.Below? && place.p < |nodes| && nodes[place.p] == owner
  }

  predicate AllLead(recs: seq<Rec>, root: Span, m: map<nat, Span>, nodes: seq<Span>, places: seq<Place>) {
    |recs| == |places| && forall i {:trigger LeadsTo(recs[i], root, m, nodes, places[i])} :: 0 <= i < |recs| ==> LeadsTo(recs[i], root, m, nodes, places[i])
  }

  lemma {:induction false} AllLeadToPlaces(root: Span, m: map<nat, Span>, nodes: seq<Span>, recs: seq<Rec>)
    requires |recs| <= |nodes| && DistinctIDs(recs) && Indexes(m, nodes, recs)
    requires Root(recs) < |nodes| && nodes[Root(recs)] == root
    requires Root(recs) < |recs| ==> root.id == recs[Root(recs)].id
    ensures AllLead(recs, root, m, nodes, Places(recs, |recs|))
  {
    forall i | 0 <= i < |recs| ensures LeadsTo(recs[i], root, m, nodes, Places(recs, |recs|)[i]) {
      PlaceAt(recs, |recs|, i);
      if !recs[i].isEvent && recs[i].parentID == 0 { RootIsLast(recs, i); }
    }
  }

  /** Second pass, one span: it is put at its place, and nothing else moves. */
  method AttachSpan(s: Span, root: Span, m: map<nat, Span>, ghost nodes: seq<Span>, ghost i: nat, ghost place: Place,
                    ghost links: Links)
    requires DistinctSpans(nodes) && Hold(nodes, links) && i < |nodes| && nodes[i] == s
    requires LeadsTo(Rec(s.id, s.parentID, s.isEvent), root, m, nodes, place)
    modifies nodes`children, nodes`events, nodes`parentID
    ensures Hold(nodes, links.Put(i, s, place, root.id))
  {
    if s.isEvent {
      if s.parentID in m {
        m[s.parentID].AddEvent(s);
      } else {
        root.AddEvent(s);
      }
      return;
    }
    if s.parentID == 0 {
      if s.id != root.id {
        s.parentID := root.id;
        root.AddChild(s);
      }
      return;
    }
    var parent: Span? := if s.parentID in m then m[s.parentID] else null;
    if parent == null {
      parent := root;
    }
    parent.AddChild(s);
  }

  /** The links once the first `n` spans have been put at their places. */
  ghost function PutAll(start: Links, nodes: seq<Span>, places: seq<Place>, rootID: nat, n: nat): (links: Links)
    requires n <= |places| <= |nodes| && start.Sized(|nodes|)
    ensures links.Sized(|nodes|)
  {
    if n == 0 then start else PutAll(start, nodes, places, rootID, n - 1).Put(n - 1, nodes[n - 1], places[n - 1], rootID)
  }

  /** Where the spans among the first `n` ended up: below and with each node those whose place
      it is, in input order; the spans without a parent that got one now name the root. */
  lemma {:induction false} PutAllGathers(start: Links, nodes: seq<Span>, places: seq<Place>, rootID: nat, n: nat, p: nat)
    requires n <= |places| <= |nodes| && start.Sized(|nodes|) && p < |nodes|
    ensures var links := PutAll(start, nodes, places, rootID, n);
      && links.kids[p] == Gathered(start.kids[p], nodes, places, Below(p), n)
      && links.events[p] == Gathered(start.events[p], nodes, places, EventOf(p), n)
      && links.parents[p] ==
         (if p < n && places[p].Below? && places[p].p < |nodes| && start.parents[p] == 0 then rootID else start.parents[p])
  {
    if n > 0 { PutAllGathers(start, nodes, places, rootID, n - 1, p); }
  }

  /** A span that has not been looked at still names the parent that it came with. */
  lemma {:induction false} ParentStill(start: Links, nodes: seq<Span>, places: seq<Place>, rootID: nat, n: nat, k: nat)
    requires n <= |places| <= |nodes| && start.Sized(|nodes|) && n <= k < |nodes|
    ensures PutAll(start, nodes, places, rootID, n).parents[k] == start.parents[k]
  {
    if n > 0 { ParentStill(start, nodes, places, rootID, n - 1, k); }
  }

  /** The lookups lead where the spans belong, and nothing has been attached yet. */
  predicate Ready(spans: seq<Span>, root: Span, m: map<nat, Span>, nodes: seq<Span>, recs: seq<Rec>,
                  places: seq<Place>, links: Links)
  {
    && |spans| == |recs| <= |nodes| && (forall i :: 0 <= i < |spans| ==> spans[i] == nodes[i])
    && links.Sized(|nodes|) && (forall i :: 0 <= i < |spans| ==> recs[i] == Rec(spans[i].id, links.parents[i], spans[i].isEvent))
    && DistinctSpans(nodes) && AllLead(recs, root, m, nodes, places)
  }

  /** What the second pass needs to know for one span. */
  lemma SpanLeads(spans: seq<Span>, root: Span, m: map<nat, Span>, nodes: seq<Span>, recs: seq<Rec>, places: seq<Place>,
                  links: Links, now: Links, i: nat)
    requires Ready(spans, root, m, nodes, recs, places, links) && i < |spans|
    requires now == PutAll(links, nodes, places, root.id, i)
    ensures DistinctSpans(nodes) && i < |nodes| && nodes[i] == spans[i] && now.Sized(|nodes|)
    ensures LeadsTo(Rec(spans[i].id, now.parents[i], spans[i].isEvent), root, m, nodes, places[i])
    ensures PutAll(links, nodes, places, root.id, i + 1) == now.Put(i, spans[i], places[i], root.id)
  {
    ParentStill(links, nodes, places, root.id, i, i);
    assert LeadsTo(recs[i], root, m, nodes, places[i]);
  }

  method AttachNext(spans: seq<Span>, i: nat, root: Span, m: map<nat, Span>, ghost nodes: seq<Span>, ghost recs: seq<Rec>,
                    ghost places: seq<Place>, ghost links: Links)
    requires Ready(spans, root, m, nodes, recs, places, links) && i < |spans|
    requires Hold(nodes, PutAll(links, nodes, places, root.id, i))
    modifies nodes`children, nodes`events, nodes`parentID
    ensures Hold(nodes, PutAll(links, nodes, places, root.id, i + 1))
  {
    ghost var now := PutAll(links, nodes, places, root.id, i);
    SpanLeads(spans, root, m, nodes, recs, places, links, now, i);
    AttachSpan(spans[i], root, m, nodes, i, places[i], now);
  }

  method AttachAll(spans: seq<Span>, root: Span, m: map<nat, Span>, ghost nodes: seq<Span>, ghost recs: seq<Rec>,
                   ghost places: seq<Place>, ghost links: Links)
    requires Ready(spans, root, m, nodes, recs, places, links) && Hold(nodes, links)
    modifies nodes`children, nodes`events, nodes`parentID
    ensures Hold(nodes, PutAll(links, nodes, places, root.id, |places|))
  {
    var i := 0;
    while i < |spans|
      invariant 0 <= i <= |spans| == |places|
      invariant Hold(nodes, PutAll(links, nodes, places, root.id, i))
    {
      AttachNext(spans, i, root, m, nodes, recs, places, links);
      i := i + 1;
    }
  }

  lemma {:induction false} NodesReady(spans: seq<Span>, root: Span, m: map<nat, Span>, recs: seq<Rec>, before: Links)
    requires RecordedAs(spans, recs) && DistinctIDs(recs) && Indexes(m, spans, recs) && Hold(spans, before)
    requires Root(recs) < |recs| ==> root == spans[Root(recs)]
    requires DistinctSpans(Nodes(spans, root, recs))
    ensures Ready(spans, root, m, Nodes(spans, root, recs), recs, Places(recs, |recs|), WithRoot(before, recs))
  {
    var nodes := Nodes(spans, root, recs);
    AllLeadToPlaces(root, m, nodes, recs);
  }

  /** The links of the spans, and those of a made-up root. */
  function WithRoot(before: Links, recs: seq<Rec>): Links {
    if Root(recs) < |recs| then before
    else Links(before.kids + [[]], before.events + [[]], before.parents + [0])
  }

  method FindRoot(spans: seq<Span>, fakeID: nat, ghost recs: seq<Rec>) returns (root: Span, m: map<nat, Span>)
    requires spans != [] && RecordedAs(spans, recs) && DistinctIDs(recs)
    ensures Root(recs) < |spans| ==> root == spans[Root(recs)]
    ensures Root(recs) == |spans| ==>
      && fresh(root) && root.id == fakeID && root.time == spans[0].time && root.duration == root.durationSelf == 0
      && root.events == [] && root.children == [] && root.parentID == 0
    ensures Indexes(m, spans, recs) && |m| == CountLinked(recs, |recs|)
  {
    var found;
    found, m := IndexSpans(spans, recs);
    if found == null {
      root := new Span(fakeID, 0, false, spans[0].time, 0);
    } else {
      root := found;
    }
  }

  method AttachToRoot(spans: seq<Span>, root: Span, m: map<nat, Span>, ghost recs: seq<Rec>, ghost before: Links)
    requires |recs| == |spans| && DistinctSpans(spans) && Hold(spans, before)
    requires Root(recs) < |recs| ==> root == spans[Root(recs)]
    requires Root(recs) == |recs| ==> root !in spans && root.events == [] && root.children == [] && root.parentID == 0
    requires RecordedAs(spans, recs) && DistinctIDs(recs) && Indexes(m, spans, recs)
    modifies spans`children, spans`events, spans`parentID, root`children, root`events, root`parentID
    ensures var nodes := Nodes(spans, root, recs);
      && DistinctSpans(nodes)
      && Hold(nodes, PutAll(WithRoot(before, recs), nodes, Places(recs, |recs|), root.id, |recs|))
  {
    NodesReady(spans, root, m, recs, before);
    AttachAll(spans, root, m, Nodes(spans, root, recs), recs, Places(recs, |recs|), WithRoot(before, recs));
  }

  /** The tree hangs together as the relation on positions says: every span and every event is
      put at its place, in input order; `before` are the links that the spans come with. */
  method BuildSpanTree(spans: seq<Span>, fakeID: nat, ghost recs: seq<Rec>, ghost before: Links)
    returns (root: Span, numSpan: nat)
    requires spans != [] && DistinctSpans(spans) && DistinctIDs(recs)
    requires RecordedAs(spans, recs) && Hold(spans, before)
    modifies spans`children, spans`events, spans`parentID
    ensures Root(recs) < |spans| ==> root == spans[Root(recs)]
    ensures Root(recs) == |spans| ==>
      fresh(root) && root.id == fakeID && root.time == spans[0].time && root.duration == root.durationSelf == 0
    ensures var nodes, places := Nodes(spans, root, recs), Places(recs, |recs|);
      DistinctSpans(nodes) && Hold(nodes, PutAll(WithRoot(before, recs), nodes, places, root.id, |recs|))
    ensures numSpan == CountLinked(recs, |recs|) + 1
  {
    var m;
    root, m := FindRoot(spans, fakeID, recs);
    AttachToRoot(spans, root, m, recs, before);
    numSpan := |m| + 1;
  }
}
