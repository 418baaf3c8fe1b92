/** The store that pairs the client and the server side of a call into an edge of the service
    graph: a table by key and a list in order of insertion, both bounded. */
module ServiceGraphStore {
  import opened Basics

  datatype Key = Key(traceID: nat, spanID: nat)

  datatype EdgeType = Undefined | Unset | Http | Db | Messaging

  /** An edge; the durations stand for minimum, maximum and sum, which are all set to it. */
  datatype Edge = Edge(project: nat, edgeType: EdgeType, time: int, clientName: string, serverName: string,
                       serverAttr: string, env: string, namespace: string,
                       clientDuration: int, serverDuration: int, count: nat, errorCount: nat)

  const ZERO_EDGE := Edge(0, Undefined, 0, "", "", "", "", "", 0, 0, 0, 0)

  predicate IsComplete(edge: Edge) {
    edge.clientName != "" && edge.serverName != ""
  }

  // ---------------------------------------------------------------------------
  // The store as a value
  // ---------------------------------------------------------------------------

  /** An edge that waits for its other side; the serial number tells insertions apart. */
  datatype Pending = Pending(serial: nat, key: Key, edge: Edge, expiresAt: int)

  /** What waits, in the order of insertion; how many were inserted; which have left. */
  datatype Store = Store(pending: seq<Pending>, inserted: nat, left: seq<nat>)

  /** Size, time to live, and whether the two lines that break the store are repaired: the key
      of a node is stored with it, and a node has expired when its time has passed. */
  datatype Config = Config(size: int, ttl: int, repaired: bool) {
    function Deadline(now: int): int {
      if ttl > 0 then now + ttl else 0
    }

    predicate Expired(expiresAt: int, now: int) {
      if repaired then expiresAt <= now else expiresAt > now
    }
  }

  /** The position of the key, or the length. */
  function Find(pending: seq<Pending>, key: Key): (i: nat)
    ensures i <= |pending|
    ensures i < |pending| ==> pending[i].key == key
    ensures i == |pending| ==> forall k :: 0 <= k < |pending| ==> pending[k].key != key
  {
    if pending == [] then 0
    else if pending[0].key == key then 0
    else 1 + Find(pending[1..], key)
  }

  function Without<T>(list: seq<T>, i: nat): (r: seq<T>)
    requires i < |list|
    ensures |r| == |list| - 1
    ensures forall k :: 0 <= k < |r| ==> r[k] == if k < i then list[k] else list[k + 1]
  {
    list[..i] + list[i + 1..]
  }

  datatype Result = Result(store: Store, completed: Option<Edge>, expired: Option<Edge>, isNew: bool, full: bool)

  /** One call with the repaired lines, or one that does not evict. */
  function Answer(s: Store, config: Config, key: Key, update: Edge -> Edge, now: int): Result {
    var i := Find(s.pending, key);
    if i < |s.pending| then
      var p := s.pending[i];
      var edge := update(p.edge);
      if IsComplete(edge) then
        Result(Store(Without(s.pending, i), s.inserted, s.left + [p.serial]), Some(edge), None, false, false)
      else Result(s.(pending := s.pending[i := p.(edge := edge)]), None, None, false, false)
    else
      var edge := update(ZERO_EDGE);
      if IsComplete(edge) then Result(s, Some(edge), None, true, false)
      else
        var waiting := Pending(s.inserted, key, edge, config.Deadline(now));
        if |s.pending| < config.size then
          Result(Store(s.pending + [waiting], s.inserted + 1, s.left), None, None, true, false)
        else if s.pending == [] || !config.Expired(s.pending[0].expiresAt, now) then
          Result(s, None, None, false, true)
        else
          Result(Store(s.pending[1..] + [waiting], s.inserted + 1, s.left + [s.pending[0].serial]),
                 None, Some(s.pending[0].edge), true, false)
  }

  /** Whether the call has to make room by removing the oldest node. */
  predicate Evicts(s: Store, config: Config, key: Key, update: Edge -> Edge, now: int) {
    && Find(s.pending, key) == |s.pending| && !IsComplete(update(ZERO_EDGE))
    && |s.pending| >= config.size && s.pending != [] && config.Expired(s.pending[0].expiresAt, now)
  }

  /** One node per key, and none is complete. */
  predicate OnePerKey(pending: seq<Pending>) {
    DistinctKeys(pending) && forall i :: 0 <= i < |pending| ==> !IsComplete(pending[i].edge)
  }

  predicate DistinctKeys(pending: seq<Pending>) {
    forall i, j :: 0 <= i < j < |pending| ==> pending[i].key != pending[j].key
  }

  /** Each edge that was inserted still waits or has left, and it has left at most once. */
  predicate LeaveOnce(s: Store) {
    && (forall i, j :: 0 <= i < j < |s.pending| ==> s.pending[i].serial != s.pending[j].serial)
    && (forall i :: 0 <= i < |s.pending| ==> s.pending[i].serial < s.inserted && s.pending[i].serial !in s.left)
    && (forall i, j :: 0 <= i < j < |s.left| ==> s.left[i] != s.left[j])
    && (forall i :: 0 <= i < |s.left| ==> s.left[i] < s.inserted)
    && |s.pending| + |s.left| == s.inserted
  }

  predicate Good(s: Store, config: Config) {
    OnePerKey(s.pending) && LeaveOnce(s) && |s.pending| <= if config.size > 0 then config.size else 0
  }

  lemma RemoveKeeps(s: Store, i: nat)
    requires OnePerKey(s.pending) && LeaveOnce(s) && i < |s.pending|
    ensures OnePerKey(Without(s.pending, i))
    ensures LeaveOnce(Store(Without(s.pending, i), s.inserted, s.left + [s.pending[i].serial]))
  {
    RemoveLeavesOnce(s, i);
  }

  lemma RemoveLeavesOnce(s: Store, i: nat)
    requires LeaveOnce(s) && i < |s.pending|
    ensures LeaveOnce(Store(Without(s.pending, i), s.inserted, s.left + [s.pending[i].serial]))
  {
    var left := s.left + [s.pending[i].serial];
    assert forall k :: 0 <= k < |s.left| ==> left[k] == s.left[k];
  }

  lemma UpdateKeeps(s: Store, i: nat, edge: Edge)
    requires OnePerKey(s.pending) && LeaveOnce(s) && i < |s.pending| && !IsComplete(edge)
    ensures OnePerKey(s.pending[i := s.pending[i].(edge := edge)])
    ensures LeaveOnce(s.(pending := s.pending[i := s.pending[i].(edge := edge)]))
  {
  }

  lemma InsertKeeps(s: Store, p: Pending)
    requires OnePerKey(s.pending) && LeaveOnce(s) && !IsComplete(p.edge) && p.serial == s.inserted
    requires forall i :: 0 <= i < |s.pending| ==> s.pending[i].key != p.key
    ensures OnePerKey(s.pending + [p]) && LeaveOnce(Store(s.pending + [p], s.inserted + 1, s.left))
  {
  }

  /** Every call keeps the store in order, whatever it is called with. */
  lemma AnswerKeepsGood(s: Store, config: Config, key: Key, update: Edge -> Edge, now: int)
    requires Good(s, config)
    ensures Good(Answer(s, config, key, update, now).store, config)
  {
    var i := Find(s.pending, key);
    if i < |s.pending| {
      var edge := update(s.pending[i].edge);
      if IsComplete(edge) { RemoveKeeps(s, i); } else { UpdateKeeps(s, i, edge); }
    } else {
      var edge := update(ZERO_EDGE);
      if !IsComplete(edge) {
        var waiting := Pending(s.inserted, key, edge, config.Deadline(now));
        if |s.pending| < config.size {
          InsertKeeps(s, waiting);
        } else if Evicts(s, config, key, update, now) {
          RemoveKeeps(s, 0);
          assert Without(s.pending, 0) == s.pending[1..];
          InsertKeeps(Store(s.pending[1..], s.inserted, s.left + [s.pending[0].serial]), waiting);
        }
      }
    }
  }

  function Appended<T>(list: seq<T>, x: Option<T>): seq<T> {
    if x.None? then list else list + [x.value]
  }

  /** What waits after the edge at this position was updated. */
  function AfterUpdate(pending: seq<Pending>, i: nat, update: Edge -> Edge): seq<Pending>
    requires i < |pending|
  {
    var edge := update(pending[i].edge);
    var updated := pending[i := pending[i].(edge := edge)];
    if IsComplete(edge) then Without(updated, i) else updated
  }

  /** What a call does that finds a node. */
  lemma {:induction false} AnswerToHit(s: Store, config: Config, key: Key, update: Edge -> Edge, now: int)
    requires DistinctKeys(s.pending) && Find(s.pending, key) < |s.pending|
    ensures var i := Find(s.pending, key); var edge := update(s.pending[i].edge);
      var r := Answer(s, config, key, update, now);
      && !r.isNew && !r.full && r.expired.None?
      && r.store.pending == AfterUpdate(s.pending, i, update) && DistinctKeys(r.store.pending)
      && r.completed == (if IsComplete(edge) then Some(edge) else None)
  {
    var i := Find(s.pending, key);
    var edge := update(s.pending[i].edge);
    assert Without(s.pending[i := s.pending[i].(edge := edge)], i) == Without(s.pending, i);
  }

  /** The edge that waits for the key. */
  function Lookup(pending: seq<Pending>, key: Key): Option<Edge> {
    var i := Find(pending, key);
    if i < |pending| then Some(pending[i].edge) else None
  }

  /** The edges that wait, each as often as it does. */
  function Edges(pending: seq<Pending>): multiset<Edge> {
    if pending == [] then multiset{}
    else Edges(pending[..|pending| - 1]) + multiset{pending[|pending| - 1].edge}
  }

  function Only<T>(x: Option<T>): multiset<T> {
    if x.None? then multiset{} else multiset{x.value}
  }

  lemma {:induction false} EdgesSnoc(pending: seq<Pending>, p: Pending)
    ensures Edges(pending + [p]) == Edges(pending) + multiset{p.edge}
  {
    assert (pending + [p])[..|pending|] == pending;
  }

  lemma SnocConcat<T>(a: seq<T>, b: seq<T>)
    requires b != []
    ensures (a + b[..|b| - 1]) + [b[|b| - 1]] == a + b
  {
  }

  lemma ThreeParts<T>(a: seq<T>, i: nat)
    requires i < |a|
    ensures a == (a[..i] + [a[i]]) + a[i + 1..]
  {
  }

  lemma {:induction false} EdgesConcat(a: seq<Pending>, b: seq<Pending>)
    ensures Edges(a + b) == Edges(a) + Edges(b)
  {
    if b == [] {
      assert a + b == a;
    } else {
      var last := |b| - 1;
      EdgesConcat(a, b[..last]);
      EdgesSnoc(a + b[..last], b[last]);
      SnocConcat(a, b);
    }
  }

  lemma {:induction false} EdgesSplit(pending: seq<Pending>, i: nat)
    requires i < |pending|
    ensures Edges(pending) == Edges(pending[..i]) + multiset{pending[i].edge} + Edges(pending[i + 1..])
  {
    var before, after := pending[..i] + [pending[i]], pending[i + 1..];
    ThreeParts(pending, i);
    EdgesConcat(before, after);
    EdgesSnoc(pending[..i], pending[i]);
  }

  /** No edge gets lost and none is made up, but for those that are refused: the edge of the call,
      which is the one that waits for the key as the call updates it, or else a new one, is passed on
      if it is complete and waits otherwise; every other one waits as before, but for the oldest,
      which leaves if it has expired and room is needed. */
  lemma {:induction false} AnswerConserves(s: Store, config: Config, key: Key, update: Edge -> Edge, now: int)
    ensures var r, was := Answer(s, config, key, update, now), Lookup(s.pending, key);
      var edge := update(if was.Some? then was.value else ZERO_EDGE);
      && (r.full <==> was.None? && !IsComplete(edge) && |s.pending| >= config.size
                      && (s.pending == [] || !config.Expired(s.pending[0].expiresAt, now)))
      && (if r.full then r.store == s && r.completed.None? && r.expired.None?
          else
            && Edges(r.store.pending) + Only(r.completed) + Only(r.expired) == Edges(s.pending) - Only(was) + multiset{edge}
            && r.completed == if IsComplete(edge) then Some(edge) else None)
      && r.expired == (if Evicts(s, config, key, update, now) then Some(s.pending[0].edge) else None)
      && (r.isNew <==> was.None? && !r.full)
  {
    if Find(s.pending, key) < |s.pending| {
      HitAnswer(s, config, key, update, now);
    } else {
      MissAnswer(s, config, key, update, now);
    }
  }

  lemma {:induction false} HitAnswer(s: Store, config: Config, key: Key, update: Edge -> Edge, now: int)
    requires Find(s.pending, key) < |s.pending|
    ensures var r, was := Answer(s, config, key, update, now), s.pending[Find(s.pending, key)].edge;
      var edge := update(was);
      && !r.full && !r.isNew && r.expired.None? && r.completed == (if IsComplete(edge) then Some(edge) else None)
      && Edges(r.store.pending) + Only(r.completed) == Edges(s.pending) - multiset{was} + multiset{edge}
  {
    var i := Find(s.pending, key);
    HitConserves(s.pending, i, update(s.pending[i].edge));
  }

  lemma {:induction false} MissAnswer(s: Store, config: Config, key: Key, update: Edge -> Edge, now: int)
    requires Find(s.pending, key) == |s.pending|
    ensures var r, edge := Answer(s, config, key, update, now), update(ZERO_EDGE);
      && (r.full <==> !IsComplete(edge) && |s.pending| >= config.size
                      && (s.pending == [] || !config.Expired(s.pending[0].expiresAt, now)))
      && (r.full ==> r.store == s && r.completed.None? && r.expired.None?)
      && (!r.full ==> Edges(r.store.pending) + Only(r.completed) + Only(r.expired) == Edges(s.pending) + multiset{edge})
      && (!r.full ==> r.completed == if IsComplete(edge) then Some(edge) else None)
      && r.expired == (if Evicts(s, config, key, update, now) then Some(s.pending[0].edge) else None)
      && (r.isNew <==> !r.full)
  {
    var p := Pending(s.inserted, key, update(ZERO_EDGE), config.Deadline(now));
    if !IsComplete(p.edge) {
      if |s.pending| < config.size {
        EdgesSnoc(s.pending, p);
      } else if Evicts(s, config, key, update, now) {
        EvictConserves(s.pending, p);
      }
    }
  }

  lemma {:induction false} SwapOne<T>(before: multiset<T>, after: multiset<T>, x: T, y: T)
    ensures before + after + multiset{y} == before + multiset{x} + after - multiset{x} + multiset{y}
    ensures before + multiset{y} + after == before + multiset{x} + after - multiset{x} + multiset{y}
  {
  }

  lemma {:induction false} UpdatedEdges(pending: seq<Pending>, i: nat, edge: Edge)
    requires i < |pending|
    ensures Edges(pending[i := pending[i].(edge := edge)]) == Edges(pending[..i]) + multiset{edge} + Edges(pending[i + 1..])
  {
    var updated := pending[i := pending[i].(edge := edge)];
    EdgesSplit(updated, i);
    assert updated[..i] == pending[..i] && updated[i + 1..] == pending[i + 1..];
  }

  lemma {:induction false} HitConserves(pending: seq<Pending>, i: nat, edge: Edge)
    requires i < |pending|
    ensures Edges(Without(pending, i)) + multiset{edge} == Edges(pending) - multiset{pending[i].edge} + multiset{edge}
    ensures Edges(pending[i := pending[i].(edge := edge)]) == Edges(pending) - multiset{pending[i].edge} + multiset{edge}
  {
    EdgesSplit(pending, i);
    UpdatedEdges(pending, i, edge);
    EdgesConcat(pending[..i], pending[i + 1..]);
    SwapOne(Edges(pending[..i]), Edges(pending[i + 1..]), pending[i].edge, edge);
  }

  lemma {:induction false} EvictConserves(pending: seq<Pending>, p: Pending)
    requires pending != []
    ensures Edges(pending[1..] + [p]) + multiset{pending[0].edge} == Edges(pending) + multiset{p.edge}
  {
    EdgesSplit(pending, 0);
    assert Edges(pending[..0]) == multiset{};
    EdgesSnoc(pending[1..], p);
  }

  /** What waits under other keys: the same, but for the oldest node if the call evicts it. */
  lemma OthersWait(s: Store, config: Config, key: Key, update: Edge -> Edge, now: int, p: Pending)
    requires p in s.pending && p.key != key
    requires Evicts(s, config, key, update, now) ==> p != s.pending[0]
    ensures p in Answer(s, config, key, update, now).store.pending
  {
    var r, i := Answer(s, config, key, update, now).store.pending, Find(s.pending, key);
    var k :| 0 <= k < |s.pending| && s.pending[k] == p;
    if i < |s.pending| {
      assert k != i;
      assert |r| == |s.pending| - 1 ==> r[if k < i then k else k - 1] == p;
      assert |r| == |s.pending| ==> r[k] == p;
    } else if r != s.pending {
      assert Evicts(s, config, key, update, now) ==> k > 0 && r[k - 1] == p;
      assert !Evicts(s, config, key, update, now) ==> r[k] == p;
    }
  }

  /** How long a node keeps its place. With the repaired line it may be removed once it has waited for
      the time to live; as built only as long as it has not. Without a time to live it may be removed
      at once with the repaired line, and never as built. */
  lemma MayBeRemovedIff(config: Config, inserted: int, now: int)
    requires now >= 0
    ensures config.Expired(config.Deadline(inserted), now)
       <==> if config.ttl > 0 then (now - inserted >= config.ttl) == config.repaired else config.repaired
  {
  }

  /** A call as it comes in. */
  datatype Call = Call(key: Key, update: Edge -> Edge, now: int)

  /** The store after the calls. */
  ghost function Run(config: Config, calls: seq<Call>): Store {
    if calls == [] then Store([], 0, [])
    else
      var call := calls[|calls| - 1];
      Answer(Run(config, calls[..|calls| - 1]), config, call.key, call.update, call.now).store
  }

  /** In every run, across all evictions: one incomplete node per key, no more than the size,
      and each inserted edge leaves at most once. */
  lemma {:induction false} RunGood(config: Config, calls: seq<Call>)
    ensures Good(Run(config, calls), config)
  {
    if calls != [] {
      RunGood(config, calls[..|calls| - 1]);
      var call := calls[|calls| - 1];
      AnswerKeepsGood(Run(config, calls[..|calls| - 1]), config, call.key, call.update, call.now);
    }
  }

  /** The nodes wait in the order in which they were inserted, so that the one that is evicted is the
      oldest. */
  predicate OldestFirst(s: Store) {
    && (forall i, j :: 0 <= i < j < |s.pending| ==> s.pending[i].serial < s.pending[j].serial)
    && (forall i :: 0 <= i < |s.pending| ==> s.pending[i].serial < s.inserted)
  }

  lemma AnswerKeepsOrder(s: Store, config: Config, key: Key, update: Edge -> Edge, now: int)
    requires OldestFirst(s)
    ensures OldestFirst(Answer(s, config, key, update, now).store)
  {
  }

  lemma {:induction false} RunKeepsOrder(config: Config, calls: seq<Call>)
    ensures OldestFirst(Run(config, calls))
  {
    if calls != [] {
      var call := calls[|calls| - 1];
      RunKeepsOrder(config, calls[..|calls| - 1]);
      AnswerKeepsOrder(Run(config, calls[..|calls| - 1]), config, call.key, call.update, call.now);
    }
  }

  // ---------------------------------------------------------------------------
  // The store as it is built
  // ---------------------------------------------------------------------------

  class EdgeNode {
    var edge: Edge
    var key: Key
    var expiresAt: int

    constructor (edge: Edge, key: Key, expiresAt: int)
      ensures this.edge == edge && this.key == key && this.expiresAt == expiresAt
    {
      this.edge, this.key, this.expiresAt := edge, key, expiresAt;
    }
  }

  /** The table that finds each node by the key of its edge. */
  function TableOf(list: seq<EdgeNode>, pending: seq<Pending>): (table: map<Key, EdgeNode>)
    requires |list| == |pending|
  {
    if list == [] then map[]
    else
      var last := |list| - 1;
      TableOf(list[..last], pending[..last])[pending[last].key := list[last]]
  }

  lemma {:induction false} TableFinds(list: seq<EdgeNode>, pending: seq<Pending>, key: Key)
    requires |list| == |pending| && DistinctKeys(pending)
    ensures key in TableOf(list, pending) <==> Find(pending, key) < |pending|
    ensures key in TableOf(list, pending) ==> TableOf(list, pending)[key] == list[Find(pending, key)]
  {
    if list != [] {
      var last := |list| - 1;
      TableFinds(list[..last], pending[..last], key);
      FindInPrefix(pending, key);
    }
  }

  lemma {:induction false} FindInPrefix(pending: seq<Pending>, key: Key)
    requires pending != []
    ensures var last := |pending| - 1; var i := Find(pending[..last], key);
      Find(pending, key) == if i < last then i else if pending[last].key == key then last else last + 1
  {
    if |pending| > 1 && pending[0].key != key {
      FindInPrefix(pending[1..], key);
      assert pending[1..][..|pending| - 2] == pending[..|pending| - 1][1..];
    }
  }

  lemma WithoutPrefix<T>(list: seq<T>, i: nat)
    requires i < |list| - 1
    ensures Without(list, i) == Without(list[..|list| - 1], i) + [list[|list| - 1]]
  {
  }

  lemma UpdateThenRemove<K, V>(m: map<K, V>, k: K, other: K, v: V)
    requires k != other
    ensures (m - {k})[other := v] == m[other := v] - {k}
  {
  }

  lemma {:induction false} TableWithout(list: seq<EdgeNode>, pending: seq<Pending>, i: nat)
    requires |list| == |pending| && DistinctKeys(pending) && i < |list|
    ensures TableOf(Without(list, i), Without(pending, i)) == TableOf(list, pending) - {pending[i].key}
    decreases |list|
  {
    var last := |list| - 1;
    if i == last {
      LastWithout(list);
      LastWithout(pending);
      TableFinds(list[..last], pending[..last], pending[last].key);
      AddThenRemove(TableOf(list[..last], pending[..last]), pending[last].key, list[last]);
    } else {
      TableWithout(list[..last], pending[..last], i);
      WithoutPrefix(list, i);
      WithoutPrefix(pending, i);
      TableSnoc(Without(list[..last], i), Without(pending[..last], i), list[last], pending[last]);
      UpdateThenRemove(TableOf(list[..last], pending[..last]), pending[i].key, pending[last].key, list[last]);
    }
  }

  lemma LastWithout<T>(list: seq<T>)
    requires list != []
    ensures Without(list, |list| - 1) == list[..|list| - 1]
  {
  }

  lemma AddThenRemove<K, V>(m: map<K, V>, k: K, v: V)
    requires k !in m
    ensures m[k := v] - {k} == m
  {
  }

  lemma {:induction false} TableSnoc(list: seq<EdgeNode>, pending: seq<Pending>, node: EdgeNode, p: Pending)
    requires |list| == |pending|
    ensures TableOf(list + [node], pending + [p]) == TableOf(list, pending)[p.key := node]
  {
    assert (list + [node])[..|list|] == list && (pending + [p])[..|list|] == pending;
  }

  lemma {:induction false} TableSize(list: seq<EdgeNode>, pending: seq<Pending>)
    requires |list| == |pending| && DistinctKeys(pending)
    ensures |TableOf(list, pending)| == |pending|
  {
    if list != [] {
      var last := |list| - 1;
      TableSize(list[..last], pending[..last]);
      TableFinds(list[..last], pending[..last], pending[last].key);
    }
  }

  /** The table knows the keys only. */
  lemma {:induction false} TableSame(list: seq<EdgeNode>, pending: seq<Pending>, other: seq<Pending>)
    requires |list| == |pending| == |other| && forall i :: 0 <= i < |list| ==> pending[i].key == other[i].key
    ensures TableOf(list, pending) == TableOf(list, other)
  {
    if list != [] {
      var last := |list| - 1;
      TableSame(list[..last], pending[..last], other[..last]);
    }
  }

  predicate Distinct(nodes: seq<EdgeNode>) {
    forall i, j :: 0 <= i < j < |nodes| ==> nodes[i] != nodes[j]
  }

  /** The nodes hold the pending edges. As built, no key is stored. */
  ghost predicate HoldAll(nodes: seq<EdgeNode>, pending: seq<Pending>, repaired: bool)
    reads nodes
  {
    |nodes| == |pending| && forall i :: 0 <= i < |nodes| ==>
      && nodes[i].edge == pending[i].edge && nodes[i].expiresAt == pending[i].expiresAt
      && nodes[i].key == if repaired then pending[i].key else Key(0, 0)
  }

  /** The list holds a node for each pending edge, and the table finds it by its key. */
  ghost predicate InSync(list: seq<EdgeNode>, table: map<Key, EdgeNode>, pending: seq<Pending>, repaired: bool)
    reads list
  {
    Distinct(list) && HoldAll(list, pending, repaired) && table == TableOf(list, pending)
  }

  lemma {:induction false} SyncUpdated(list: seq<EdgeNode>, table: map<Key, EdgeNode>, pending: seq<Pending>, updated: seq<Pending>, repaired: bool)
    requires Distinct(list) && HoldAll(list, updated, repaired) && |pending| == |updated| && table == TableOf(list, pending)
    requires forall i :: 0 <= i < |pending| ==> pending[i].key == updated[i].key
    ensures InSync(list, table, updated, repaired)
  {
    TableSame(list, pending, updated);
  }

  lemma SyncRemoved(list: seq<EdgeNode>, table: map<Key, EdgeNode>, pending: seq<Pending>, repaired: bool, i: nat)
    requires InSync(list, table, pending, repaired) && i < |list| && DistinctKeys(pending)
    ensures InSync(Without(list, i), table - {pending[i].key}, Without(pending, i), repaired)
  {
    HoldWithout(list, pending, repaired, i);
    TableWithout(list, pending, i);
  }

  lemma HoldWithout(nodes: seq<EdgeNode>, pending: seq<Pending>, repaired: bool, i: nat)
    requires HoldAll(nodes, pending, repaired) && i < |nodes| && Distinct(nodes)
    ensures HoldAll(Without(nodes, i), Without(pending, i), repaired) && Distinct(Without(nodes, i))
  {
  }

  lemma SyncPushed(list: seq<EdgeNode>, table: map<Key, EdgeNode>, pending: seq<Pending>, repaired: bool, node: EdgeNode, p: Pending)
    requires InSync(list, table, pending, repaired) && node !in list
    requires node.edge == p.edge && node.expiresAt == p.expiresAt && node.key == if repaired then p.key else Key(0, 0)
    ensures InSync(list + [node], table[p.key := node], pending + [p], repaired)
  {
    TableSnoc(list, pending, node, p);
  }

  /** A table with an entry for a node that is not in the list belongs to no list of pending edges. */
  lemma {:induction false} StrayEntry(list: seq<EdgeNode>, table: map<Key, EdgeNode>, pending: seq<Pending>, key: Key)
    requires key in table && table[key] !in list
    ensures !(|list| == |pending| && DistinctKeys(pending) && table == TableOf(list, pending))
  {
    if |list| == |pending| && DistinctKeys(pending) { TableFinds(list, pending, key); }
  }

  /** As built, an eviction leaves such an entry for the node that is gone. */
  lemma {:induction false} EvictedIsStray(before: seq<EdgeNode>, pending: seq<Pending>, key: Key, list: seq<EdgeNode>, table: map<Key, EdgeNode>)
    requires |before| == |pending| == |list| > 0 && DistinctKeys(pending) && Distinct(before)
    requires Find(pending, key) == |pending| && pending[0].key != Key(0, 0)
    requires list[..|list| - 1] == before[1..] && list[|list| - 1] !in before
    requires table == (TableOf(before, pending) - {Key(0, 0)})[key := list[|list| - 1]]
    ensures pending[0].key in table && table[pending[0].key] !in list
  {
    TableFinds(before, pending, pending[0].key);
    assert list == before[1..] + [list[|list| - 1]];
  }

  lemma WithoutHead<T>(list: seq<T>)
    requires list != []
    ensures forall i :: 0 < i < |list| ==> Without(list, i) == [list[0]] + Without(list[1..], i - 1)
  {
  }

  /** The list without the node. */
  function Remove(list: seq<EdgeNode>, node: EdgeNode): (r: seq<EdgeNode>)
    requires node in list && Distinct(list)
    ensures forall i :: 0 <= i < |list| && list[i] == node ==> r == Without(list, i)
  {
    if list[0] == node then Without(list, 0)
    else
      WithoutHead(list);
      [list[0]] + Remove(list[1..], node)
  }

  class EdgeStore {
    const config: Config
    var list: seq<EdgeNode>
    var table: map<Key, EdgeNode>
    var completed: seq<Edge>  // passed to the callbacks
    var expired: seq<Edge>

    constructor (config: Config)
      ensures this.config == config && Represents([]) && completed == expired == []
    {
      this.config := config;
      list, table, completed, expired := [], map[], [], [];
    }

    /** What waits in the store. */
    ghost predicate Represents(pending: seq<Pending>)
      reads this, list
    {
      DistinctKeys(pending) && InSync(list, table, pending, config.repaired)
    }

    /** The oldest node is removed if it has expired. As built, the key of every node is zero,
        so that its entry stays in the table. */
    method TryRemoveFront(now: int, ghost pending: seq<Pending>) returns (edge: Option<Edge>)
      requires Represents(pending)
      modifies this`list, this`table
      ensures edge == if pending != [] && config.Expired(pending[0].expiresAt, now) then Some(pending[0].edge) else None
      ensures edge.None? ==> list == old(list) && table == old(table)
      ensures edge.Some? ==> list == old(list)[1..]
      ensures edge.Some? && (config.repaired || pending[0].key == Key(0, 0)) ==> InSync(list, table, pending[1..], config.repaired)
      ensures edge.Some? && !config.repaired ==> table == old(table) - {Key(0, 0)}
    {
      if |list| == 0 { return None; }
      var front := list[0];
      if !config.Expired(front.expiresAt, now) { return None; }
      assert Without(list, 0) == list[1..] && Without(pending, 0) == pending[1..];
      SyncRemoved(list, table, pending, config.repaired, 0);
      table := table - {front.key};
      list := list[1..];
      edge := Some(front.edge);
    }

    method SetEdge(node: EdgeNode, edge: Edge, ghost pending: seq<Pending>, ghost i: nat)
      requires InSync(list, table, pending, config.repaired) && i < |list| && list[i] == node
      modifies node`edge
      ensures InSync(list, table, pending[i := pending[i].(edge := edge)], config.repaired)
    {
      node.edge := edge;
      SyncUpdated(list, table, pending, pending[i := pending[i].(edge := edge)], config.repaired);
    }

    method RemoveNode(key: Key, node: EdgeNode, ghost pending: seq<Pending>, ghost i: nat)
      requires InSync(list, table, pending, config.repaired) && DistinctKeys(pending)
      requires i < |list| && list[i] == node && pending[i].key == key
      modifies this`list, this`table
      ensures InSync(list, table, Without(pending, i), config.repaired)
    {
      SyncRemoved(list, table, pending, config.repaired, i);
      table := table - {key};
      list := Remove(list, node);
    }

    /** The node of the key is updated, and leaves when it is complete. */
    method UpdateNode(key: Key, node: EdgeNode, update: Edge -> Edge, ghost pending: seq<Pending>, ghost i: nat)
      requires InSync(list, table, pending, config.repaired) && DistinctKeys(pending)
      requires i < |list| && list[i] == node && pending[i].key == key
      modifies this`list, this`table, this`completed, node`edge
      ensures InSync(list, table, AfterUpdate(pending, i, update), config.repaired)
      ensures var edge := update(pending[i].edge);
        completed == if IsComplete(edge) then old(completed) + [edge] else old(completed)
    {
      var edge := update(node.edge);
      SetEdge(node, edge, pending, i);
      if IsComplete(edge) {
        completed := completed + [edge];
        RemoveNode(key, node, pending[i := pending[i].(edge := edge)], i);
      }
    }

    /** The node waits at the back of the list. */
    method PushBack(node: EdgeNode, key: Key, ghost pending: seq<Pending>, ghost p: Pending)
      requires node !in list && p.key == key && node.edge == p.edge && node.expiresAt == p.expiresAt
      requires node.key == if config.repaired then key else Key(0, 0)
      modifies this`list, this`table
      ensures list == old(list) + [node] && table == old(table)[key := node]
      ensures old(InSync(list, table, pending, config.repaired)) ==> InSync(list, table, pending + [p], config.repaired)
    {
      if InSync(list, table, pending, config.repaired) {
        SyncPushed(list, table, pending, config.repaired, node, p);
      }
      list := list + [node];
      table := table[key := node];
    }

    method PassExpired(edge: Edge)
      modifies this`expired
      ensures expired == old(expired) + [edge]
    {
      expired := expired + [edge];
    }

    /** Removes the oldest node if it has expired, and passes it on. */
    method ExpireFront(now: int, ghost pending: seq<Pending>) returns (ok: bool)
      requires Represents(pending)
      modifies this`list, this`table, this`expired
      ensures ok <==> pending != [] && config.Expired(pending[0].expiresAt, now)
      ensures !ok ==> list == old(list) && table == old(table) && expired == old(expired)
      ensures ok ==>
        && list == old(list)[1..] && expired == old(expired) + [pending[0].edge]
        && (config.repaired || pending[0].key == Key(0, 0) ==> InSync(list, table, pending[1..], config.repaired))
        && (!config.repaired ==> table == old(table) - {Key(0, 0)})
    {
      var oldest := TryRemoveFront(now, pending);
      ok := oldest.Some?;
      if ok { PassExpired(oldest.value); }
    }

    /** Removes the oldest node if the store is full. */
    method MakeRoom(now: int, ghost pending: seq<Pending>) returns (ok: bool)
      requires Represents(pending)
      modifies this`list, this`table, this`expired
      ensures ok <==> |pending| < config.size || (pending != [] && config.Expired(pending[0].expiresAt, now))
      ensures !ok || |pending| < config.size ==> list == old(list) && table == old(table) && expired == old(expired)
      ensures ok && |pending| >= config.size ==>
        && list == old(list)[1..] && expired == old(expired) + [pending[0].edge]
        && (config.repaired || pending[0].key == Key(0, 0) ==> InSync(list, table, pending[1..], config.repaired))
        && (!config.repaired ==> table == old(table) - {Key(0, 0)})
    {
      assert |table| == |pending| by { TableSize(list, pending); }
      if |table| < config.size { return true; }
      ok := ExpireFront(now, pending);
    }

    /** The part of a call that finds no node, when there is room. */
    method Insert(key: Key, edge: Edge, now: int, ghost pending: seq<Pending>, ghost serial: nat)
      modifies this`list, this`table
      ensures |list| == |old(list)| + 1 && list[..|old(list)|] == old(list) && fresh(list[|old(list)|])
      ensures table == old(table)[key := list[|old(list)|]]
      ensures old(InSync(list, table, pending, config.repaired)) ==>
        InSync(list, table, pending + [Pending(serial, key, edge, config.Deadline(now))], config.repaired)
    {
      var deadline := if config.ttl > 0 then now + config.ttl else 0;
      var node := new EdgeNode(edge, if config.repaired then key else Key(0, 0), deadline);
      PushBack(node, key, pending, Pending(serial, key, edge, deadline));
    }

    /** A call that finds no node. */
    method WithNewEdge(key: Key, update: Edge -> Edge, now: int, ghost s: Store) returns (isNew: bool, full: bool)
      requires Represents(s.pending) && Find(s.pending, key) == |s.pending|
      modifies this`list, this`table, this`completed, this`expired
      ensures config.repaired || !Evicts(s, config, key, update, now) || s.pending[0].key == Key(0, 0) ==>
        Represents(Answer(s, config, key, update, now).store.pending)
      ensures !config.repaired && Evicts(s, config, key, update, now) ==>
        && |list| == |s.pending| && list[..|list| - 1] == old(list)[1..] && fresh(list[|list| - 1])
        && table == (old(table) - {Key(0, 0)})[key := list[|list| - 1]]
      ensures var r := Answer(s, config, key, update, now);
        && isNew == r.isNew && full == r.full
        && completed == Appended(old(completed), r.completed) && expired == Appended(old(expired), r.expired)
    {
      AnswerToMiss(s, config, key, update, now);
      var edge := update(ZERO_EDGE);
      if IsComplete(edge) {
        completed := completed + [edge];
        return true, false;
      }
      full := WithWaitingEdge(key, update, now, s);
      isNew := !full;
    }

    /** A node that has to wait is inserted if there is room for it. */
    method WithWaitingEdge(key: Key, update: Edge -> Edge, now: int, ghost s: Store) returns (full: bool)
      requires Represents(s.pending) && Find(s.pending, key) == |s.pending| && !IsComplete(update(ZERO_EDGE))
      modifies this`list, this`table, this`expired
      ensures config.repaired || !Evicts(s, config, key, update, now) || s.pending[0].key == Key(0, 0) ==>
        InSync(list, table, Answer(s, config, key, update, now).store.pending, config.repaired)
      ensures !config.repaired && Evicts(s, config, key, update, now) ==>
        && |list| == |s.pending| && list[..|list| - 1] == old(list)[1..] && fresh(list[|list| - 1])
        && table == (old(table) - {Key(0, 0)})[key := list[|list| - 1]]
      ensures var r := Answer(s, config, key, update, now);
        full == r.full && expired == Appended(old(expired), r.expired)
    {
      var ok := MakeRoom(now, s.pending);
      if !ok { return true; }
      Insert(key, update(ZERO_EDGE), now, if |s.pending| < config.size then s.pending else s.pending[1..], s.inserted);
      full := false;
    }

    /** One call. Unless it evicts as built, the store represents what it should; if it does, the
        entry of the node that is gone stays in the table, unless its key was zero: the store then
        represents no list of pending edges at all. */
    method WithEdge(key: Key, update: Edge -> Edge, now: int, ghost s: Store) returns (isNew: bool, full: bool)
      requires Represents(s.pending)
      modifies this`list, this`table, this`completed, this`expired, list
      ensures config.repaired || !Evicts(s, config, key, update, now) || s.pending[0].key == Key(0, 0) ==>
        Represents(Answer(s, config, key, update, now).store.pending)
      ensures !config.repaired && Evicts(s, config, key, update, now) ==>
        && |list| == |s.pending| && list[..|list| - 1] == old(list)[1..] && fresh(list[|list| - 1])
        && table == (old(table) - {Key(0, 0)})[key := list[|list| - 1]]
      ensures !config.repaired && Evicts(s, config, key, update, now) ==>
        ((exists pending :: Represents(pending)) <==> s.pending[0].key == Key(0, 0))
      ensures var r := Answer(s, config, key, update, now);
        && isNew == r.isNew && full == r.full
        && completed == Appended(old(completed), r.completed) && expired == Appended(old(expired), r.expired)
    {
      TableFinds(list, s.pending, key);
      if key !in table {
        isNew, full := WithNewEdge(key, update, now, s);
        if !config.repaired && Evicts(s, config, key, update, now) && s.pending[0].key != Key(0, 0) {
          EvictedIsStray(old(list), s.pending, key, list, table);
          forall pending ensures !Represents(pending) { StrayEntry(list, table, pending, s.pending[0].key); }
        }
        return;
      }
      AnswerToHit(s, config, key, update, now);
      UpdateNode(key, table[key], update, s.pending, Find(s.pending, key));
      isNew, full := false, false;
    }
  }

  /** What a call does that finds no node. */
  lemma {:induction false} AnswerToMiss(s: Store, config: Config, key: Key, update: Edge -> Edge, now: int)
    requires DistinctKeys(s.pending) && Find(s.pending, key) == |s.pending|
    ensures DistinctKeys(Answer(s, config, key, update, now).store.pending)
  {
  }

  /** As built, the first eviction leaves the entry of the node that is gone in the table, which
      is then larger than the size: the store is no longer what it should be. */
  lemma {:induction false} EvictionAsBuiltOutgrows(list: seq<EdgeNode>, pending: seq<Pending>, key: Key, node: EdgeNode)
    requires |list| == |pending| > 0 && DistinctKeys(pending) && Distinct(list)
    requires Find(pending, key) == |pending| && Find(pending, Key(0, 0)) == |pending|
    ensures var after := (TableOf(list, pending) - {Key(0, 0)})[key := node];
      && |after| == |pending| + 1
      && pending[0].key in after && after[pending[0].key] == list[0] && list[0] !in list[1..]
  {
    TableSize(list, pending);
    TableFinds(list, pending, key);
    TableFinds(list, pending, Key(0, 0));
    TableFinds(list, pending, pending[0].key);
    assert TableOf(list, pending) - {Key(0, 0)} == TableOf(list, pending);
  }
}
