/** The service graph: an edge for each call, made from its client span and its server span in
    whichever order they arrive. */
module ServiceGraph {
  import opened Basics
  import opened ServiceGraphStore

  datatype SpanKind = InternalKind | ClientKind | ServerKind | ProducerKind | ConsumerKind

  datatype SpanType = RpcSpan | DbSpan | HttpSpan | MessagingSpan | OtherSpan

  datatype SpanIndex = SpanIndex(kind: SpanKind, spanType: SpanType, project: nat, traceID: nat, id: nat, parentID: nat,
                                 serviceName: string, system: string, env: string, namespace: string,
                                 rpcService: string, dbName: string, socketDomain: string, socketAddress: string,
                                 time: int, duration: int, count: nat, isError: bool)

  /** The attribute and the name of the other side, as far as the client knows it. */
  function ServerNode(span: SpanIndex): (string, string) {
    match span.spanType
    case RpcSpan => if span.rpcService != "" then ("rpc.service", span.rpcService) else ("", "")
    case DbSpan => if span.dbName != "" then ("db.name", span.dbName) else (".system", span.system)
    case HttpSpan =>
      if span.socketDomain != "" then ("server.socket.domain", span.socketDomain)
      else if span.socketAddress != "" then ("server.socket.address", span.socketAddress)
      else ("", "")
    case _ => ("", "")
  }

  function TypeOfEdge(span: SpanIndex): EdgeType {
    if span.kind == ProducerKind || span.kind == ConsumerKind then Messaging
    else
      match span.spanType
      case HttpSpan => Http
      case DbSpan => Db
      case _ => Unset
  }

  /** The duration of the client, with the counts; these have 32 bits. */
  function WithClientDuration(span: SpanIndex, edge: Edge): Edge {
    var count := span.count % 0x1_0000_0000;
    edge.(clientDuration := span.duration, count := count, errorCount := if span.isError then count else edge.errorCount)
  }

  function ClientSide(span: SpanIndex, edge: Edge): Edge {
    var named := edge.(project := span.project, edgeType := TypeOfEdge(span), time := Truncated(span.time),
                      clientName := span.serviceName, env := span.env, namespace := span.namespace);
    var timed := WithClientDuration(span, named);
    if ServerNode(span).1 != "" then timed.(serverAttr := ServerNode(span).0, serverName := ServerNode(span).1) else timed
  }

  function ExternalClient(spanType: SpanType): string {
    match spanType
    case HttpSpan => "<browser>"
    case RpcSpan => "<external-rpc>"
    case MessagingSpan => "<external-producer>"
    case _ => "<external-client>"
  }

  function ServerSide(span: SpanIndex, edge: Edge): Edge {
    var typed := edge.(project := span.project, serverDuration := span.duration,
                       edgeType := if edge.edgeType == Undefined then TypeOfEdge(span) else edge.edgeType);
    var rooted :=
      if span.parentID == 0 then
        WithClientDuration(span, typed.(time := Truncated(span.time), clientName := ExternalClient(span.spanType),
                                        env := span.env, namespace := span.namespace))
      else typed;
    if span.serviceName != "" then rooted.(serverName := span.serviceName)
    else rooted.(serverName := span.system, serverAttr := ".system")
  }

  predicate IsClient(span: SpanIndex) {
    span.kind == ClientKind || span.kind == ProducerKind
  }

  predicate IsServer(span: SpanIndex) {
    span.kind == ServerKind || span.kind == ConsumerKind
  }

  /** Whether a span is looked at, the key of its edge, and what it does to the edge. */
  predicate Counts(span: SpanIndex) {
    (IsClient(span) && span.serviceName != "") || IsServer(span)
  }

  function KeyOf(span: SpanIndex): Key {
    Key(span.traceID, if IsClient(span) then span.id else span.parentID)
  }

  function UpdateOf(span: SpanIndex): Edge -> Edge {
    (edge: Edge) => if IsClient(span) then ClientSide(span, edge) else ServerSide(span, edge)
  }

  // ---------------------------------------------------------------------------
  // Pairs
  // ---------------------------------------------------------------------------

  /** The two spans of one call: the client does not know the other side, and the server has
      some name. */
  datatype Pair = Pair(client: SpanIndex, server: SpanIndex) {
    predicate Matches() {
      && IsClient(client) && client.serviceName != "" && ServerNode(client).1 == ""
      && IsServer(server) && (server.serviceName != "" || server.system != "")
      && server.traceID == client.traceID && server.parentID == client.id != 0
    }

    function Side(isClient: bool): SpanIndex {
      if isClient then client else server
    }

    function Alone(isClient: bool): Edge {
      UpdateOf(Side(isClient))(ZERO_EDGE)
    }

    /** The edge if the client comes first. */
    function Merged(): Edge {
      ServerSide(server, ClientSide(client, ZERO_EDGE))
    }
  }

  /** Neither side makes an edge alone; both do, and it is the same in either order if and only
      if they belong to the same project: else the span that comes last decides. */
  lemma SidesCommuteIff(pair: Pair)
    requires pair.Matches()
    ensures KeyOf(pair.client) == KeyOf(pair.server)
    ensures !IsComplete(pair.Alone(true)) && !IsComplete(pair.Alone(false))
    ensures IsComplete(pair.Merged()) && IsComplete(ClientSide(pair.client, ServerSide(pair.server, ZERO_EDGE)))
    ensures ClientSide(pair.client, ServerSide(pair.server, ZERO_EDGE)) == pair.Merged()
       <==> pair.client.project == pair.server.project
  {
  }

  /** A call from one project into another one: the edge belongs to the project of the span that
      comes last. */
  lemma OtherProjectsDiffer() returns (pair: Pair)
    ensures pair.Matches()
    ensures ClientSide(pair.client, ServerSide(pair.server, ZERO_EDGE)) != pair.Merged()
  {
    var client := SpanIndex(ClientKind, OtherSpan, 1, 7, 8, 0, "shop", "", "", "", "", "", "", "", 0, 0, 1, false);
    var server := SpanIndex(ServerKind, OtherSpan, 2, 7, 9, 8, "stock", "", "", "", "", "", "", "", 0, 0, 1, false);
    pair := Pair(client, server);
    SidesCommuteIff(pair);
  }

  // ---------------------------------------------------------------------------
  // The processor
  // ---------------------------------------------------------------------------

  /** The stores of all shards, and the edges passed on so far. */
  datatype Graph = Graph(shards: seq<Store>, edges: seq<Edge>)

  /** How spans are spread over the shards, and the configuration of every shard. */
  datatype Setup = Setup(hash: nat -> nat, config: Config)

  function ShardOf(setup: Setup, n: nat, traceID: nat): (i: nat)
    requires n > 0
    ensures i < n
  {
    setup.hash(traceID) % n
  }

  /** A trace has one shard. */
  function Processed(setup: Setup, graph: Graph, span: SpanIndex, now: int): (after: Graph)
    requires |graph.shards| > 0
    ensures |after.shards| == |graph.shards|
    ensures forall i :: 0 <= i < |graph.shards| && i != setup.hash(span.traceID) % |graph.shards| ==>
      after.shards[i] == graph.shards[i]
  {
    if !Counts(span) then graph
    else
      var i := ShardOf(setup, |graph.shards|, span.traceID);
      var r := Answer(graph.shards[i], setup.config, KeyOf(span), UpdateOf(span), now);
      Graph(graph.shards[i := r.store], Appended(graph.edges, r.completed))
  }

  class ServiceGraphProcessor {
    const setup: Setup
    const storeShards: seq<EdgeStore>

    constructor (setup: Setup, storeShards: seq<EdgeStore>)
      ensures this.setup == setup && this.storeShards == storeShards
    {
      this.setup, this.storeShards := setup, storeShards;
    }

    /** The store of the trace's shard is called for a span that counts, and no other store. */
    method ProcessSpan(span: SpanIndex, now: int, ghost s: Store)
      requires storeShards != []
      requires var store := storeShards[ShardOf(setup, |storeShards|, span.traceID)];
        store.config == setup.config && store.Represents(s.pending)
      modifies storeShards[ShardOf(setup, |storeShards|, span.traceID)]
      modifies storeShards[ShardOf(setup, |storeShards|, span.traceID)].list
      ensures var store := storeShards[ShardOf(setup, |storeShards|, span.traceID)];
        var r := Answer(s, setup.config, KeyOf(span), UpdateOf(span), now);
        && (!Counts(span) ==> store.Represents(s.pending) && store.completed == old(store.completed))
        && (Counts(span) ==> store.completed == Appended(old(store.completed), r.completed))
        && (Counts(span) && (setup.config.repaired || !Evicts(s, setup.config, KeyOf(span), UpdateOf(span), now)) ==>
             store.Represents(r.store.pending))
    {
      var store := storeShards[ShardOf(setup, |storeShards|, span.traceID)];
      match span.kind
      case ClientKind | ProducerKind =>
        if span.serviceName == "" { return; }
        var _, _ := store.WithEdge(Key(span.traceID, span.id), UpdateOf(span), now, s);
      case ServerKind | ConsumerKind =>
        var _, _ := store.WithEdge(Key(span.traceID, span.parentID), UpdateOf(span), now, s);
      case InternalKind =>
    }
  }

  // ---------------------------------------------------------------------------
  // What an edge says
  // ---------------------------------------------------------------------------

  /** The client names the other side itself: the service it calls, the database, or the address. */
  predicate NamesServer(span: SpanIndex) {
    || (span.spanType == RpcSpan && span.rpcService != "")
    || (span.spanType == DbSpan && (span.dbName != "" || span.system != ""))
    || (span.spanType == HttpSpan && (span.socketDomain != "" || span.socketAddress != ""))
  }

  /** What an edge takes over from the span of the client, or of a server that has no client. */
  predicate TakenFrom(edge: Edge, span: SpanIndex) {
    && edge.project == span.project && edge.env == span.env && edge.namespace == span.namespace
    && edge.time <= span.time < edge.time + MINUTE && WholeMinutes(edge.time)
    && edge.clientDuration == span.duration
    && (span.count < 0x1_0000_0000 ==> edge.count == span.count && edge.errorCount == if span.isError then span.count else 0)
  }

  /** The kind of a call: messaging for producers and consumers, else http or db for such spans. */
  predicate TypedBy(edge: Edge, span: SpanIndex) {
    && (edge.edgeType == Messaging <==> span.kind == ProducerKind || span.kind == ConsumerKind)
    && (edge.edgeType == Http <==> (span.kind == ClientKind || span.kind == ServerKind) && span.spanType == HttpSpan)
    && (edge.edgeType == Db <==> (span.kind == ClientKind || span.kind == ServerKind) && span.spanType == DbSpan)
    && edge.edgeType != Undefined
  }

  lemma TimeTaken(time: int)
    ensures Truncated(time) <= time < Truncated(time) + MINUTE && WholeMinutes(Truncated(time))
  {
    WholePart(time);
  }

  /** The edge of a client span for which nothing waits: it is complete, without any server span, if
      and only if the client names the other side. */
  lemma ClientAlone(span: SpanIndex)
    requires (span.kind == ClientKind || span.kind == ProducerKind) && span.serviceName != ""
    ensures var edge := UpdateOf(span)(ZERO_EDGE);
      && (IsComplete(edge) <==> NamesServer(span))
      && TakenFrom(edge, span) && TypedBy(edge, span) && edge.clientName == span.serviceName && edge.serverDuration == 0
      && (edge.serverAttr, edge.serverName) ==
           if !NamesServer(span) then ("", "")
           else if span.spanType == RpcSpan then ("rpc.service", span.rpcService)
           else if span.spanType == DbSpan && span.dbName != "" then ("db.name", span.dbName)
           else if span.spanType == DbSpan then (".system", span.system)
           else if span.socketDomain != "" then ("server.socket.domain", span.socketDomain)
           else ("server.socket.address", span.socketAddress)
  {
    TimeTaken(span.time);
  }

  /** So the edge of such a client is passed on at once, whatever else waits, and nothing waits for a
      server span that would never come. */
  lemma NamedServerPassedOn(setup: Setup, graph: Graph, span: SpanIndex, now: int)
    requires |graph.shards| > 0 && (span.kind == ClientKind || span.kind == ProducerKind) && span.serviceName != ""
    requires Waiting(setup, graph, Key(span.traceID, span.id)).None?
    ensures Processed(setup, graph, span, now).edges ==
      if NamesServer(span) then graph.edges + [UpdateOf(span)(ZERO_EDGE)] else graph.edges
    ensures NamesServer(span) ==> Processed(setup, graph, span, now).shards == graph.shards
  {
    ClientAlone(span);
    var i := ShardOf(setup, |graph.shards|, span.traceID);
    assert graph.shards[i := graph.shards[i]] == graph.shards;
  }

  /** The edge of a server span without a parent for which nothing waits: it is complete if the server
      has any name, and its client is named by the type of the span. */
  lemma RootServerAlone(span: SpanIndex)
    requires (span.kind == ServerKind || span.kind == ConsumerKind) && span.parentID == 0
    ensures var edge := UpdateOf(span)(ZERO_EDGE);
      && (IsComplete(edge) <==> span.serviceName != "" || span.system != "")
      && TakenFrom(edge, span) && TypedBy(edge, span) && edge.serverDuration == span.duration
      && edge.clientName == (match span.spanType
           case HttpSpan => "<browser>"
           case RpcSpan => "<external-rpc>"
           case MessagingSpan => "<external-producer>"
           case _ => "<external-client>")
      && edge.serverName == (if span.serviceName != "" then span.serviceName else span.system)
      && edge.serverAttr == (if span.serviceName != "" then "" else ".system")
  {
    TimeTaken(span.time);
  }

  lemma RootServerPassedOn(setup: Setup, graph: Graph, span: SpanIndex, now: int)
    requires |graph.shards| > 0 && (span.kind == ServerKind || span.kind == ConsumerKind) && span.parentID == 0
    requires Waiting(setup, graph, Key(span.traceID, 0)).None?
    ensures Processed(setup, graph, span, now).edges ==
      if span.serviceName != "" || span.system != "" then graph.edges + [UpdateOf(span)(ZERO_EDGE)] else graph.edges
  {
    RootServerAlone(span);
  }

  /** The edge of a pair: all but the server's name and duration comes from the client. */
  lemma MergedSays(pair: Pair)
    requires pair.Matches()
    ensures var edge, client, server := pair.Merged(), pair.client, pair.server;
      && TakenFrom(edge.(project := client.project), client) && TypedBy(edge, client) && edge.project == server.project
      && edge.clientName == client.serviceName && edge.serverDuration == server.duration
      && edge.serverName == (if server.serviceName != "" then server.serviceName else server.system)
      && edge.serverAttr == (if server.serviceName != "" then "" else ".system")
  {
    TimeTaken(pair.client.time);
  }

  /** A span of another kind, and a client without a name, leaves everything as it is. */
  lemma OthersIgnored(setup: Setup, graph: Graph, span: SpanIndex, now: int)
    requires |graph.shards| > 0
    requires span.kind == InternalKind || ((span.kind == ClientKind || span.kind == ProducerKind) && span.serviceName == "")
    ensures Processed(setup, graph, span, now) == graph
  {
  }

  // ---------------------------------------------------------------------------
  // Order does not matter
  // ---------------------------------------------------------------------------

  /** One side of one of the pairs. */
  datatype Half = Half(pair: nat, isClient: bool)

  /** Pairs that may be told apart by their keys, each within a project. */
  predicate Disjoint(pairs: seq<Pair>) {
    && (forall i :: 0 <= i < |pairs| ==> pairs[i].Matches() && pairs[i].client.project == pairs[i].server.project)
    && (forall i, j :: 0 <= i < j < |pairs| ==> KeyOf(pairs[i].client) != KeyOf(pairs[j].client))
  }

  /** Halves in the order of their arrival: any, but none twice. */
  predicate Arrivals(pairs: seq<Pair>, halves: seq<Half>) {
    && (forall i :: 0 <= i < |halves| ==> halves[i].pair < |pairs|)
    && (forall i, j :: 0 <= i < j < |halves| ==> halves[i] != halves[j])
  }

  /** The graph after the spans have arrived at the times `nows`. */
  ghost function After(setup: Setup, n: nat, pairs: seq<Pair>, halves: seq<Half>, nows: nat -> int): (graph: Graph)
    requires n > 0 && Arrivals(pairs, halves)
    ensures |graph.shards| == n
  {
    if halves == [] then Graph(seq(n, i => Store([], 0, [])), [])
    else
      var last, before := halves[|halves| - 1], halves[..|halves| - 1];
      Processed(setup, After(setup, n, pairs, before, nows), pairs[last.pair].Side(last.isClient), nows(|before|))
  }

  /** The edge that waits for the key in its shard. */
  function Waiting(setup: Setup, graph: Graph, key: Key): Option<Edge>
    requires |graph.shards| > 0
  {
    Lookup(graph.shards[ShardOf(setup, |graph.shards|, key.traceID)].pending, key)
  }

  /** What waits for a pair when these halves have arrived: the side that came alone. */
  function Expected(pair: Pair, i: nat, halves: seq<Half>): Option<Edge> {
    var client, server := Half(i, true) in halves, Half(i, false) in halves;
    if client == server then None else Some(pair.Alone(client))
  }

  /** The edges of all pairs. */
  function MergedAll(pairs: seq<Pair>): (edges: seq<Edge>)
    ensures |edges| == |pairs| && forall i :: 0 <= i < |pairs| ==> edges[i] == pairs[i].Merged()
  {
    if pairs == [] then [] else MergedAll(pairs[..|pairs| - 1]) + [pairs[|pairs| - 1].Merged()]
  }

  /** Those of the edges before `n` of whose pair both halves have arrived. */
  function Done(edges: seq<Edge>, halves: seq<Half>, n: nat): multiset<Edge>
    requires n <= |edges|
  {
    if n == 0 then multiset{}
    else if Both(halves, n - 1) then Done(edges, halves, n - 1) + multiset{edges[n - 1]}
    else Done(edges, halves, n - 1)
  }

  predicate Both(halves: seq<Half>, i: nat) {
    Half(i, true) in halves && Half(i, false) in halves
  }

  predicate IsPairKey(pairs: seq<Pair>, key: Key) {
    exists i :: 0 <= i < |pairs| && KeyOf(pairs[i].client) == key
  }

  ghost predicate Good(setup: Setup, graph: Graph, pairs: seq<Pair>, halves: seq<Half>)
    requires |graph.shards| > 0
  {
    && (forall s :: 0 <= s < |graph.shards| ==>
         DistinctKeys(graph.shards[s].pending) && AllPairKeys(graph.shards[s].pending, pairs))
    && (forall i: nat :: i < |pairs| ==> Waiting(setup, graph, KeyOf(pairs[i].client)) == Expected(pairs[i], i, halves))
    && multiset(graph.edges) == Done(MergedAll(pairs), halves, |pairs|)
  }

  lemma {:induction false} FindsOnly(pending: seq<Pending>, key: Key, i: nat)
    requires DistinctKeys(pending) && i < |pending| && pending[i].key == key
    ensures Find(pending, key) == i
  {
    var f := Find(pending, key);
    assert f < |pending|;
  }

  lemma HitWaits(pending: seq<Pending>, i: nat, update: Edge -> Edge, other: Key)
    requires DistinctKeys(pending) && i < |pending| && DistinctKeys(AfterUpdate(pending, i, update))
    ensures var edge := update(pending[i].edge);
      Lookup(AfterUpdate(pending, i, update), other)
      == if other != pending[i].key then Lookup(pending, other) else if IsComplete(edge) then None else Some(edge)
  {
    var after, j := AfterUpdate(pending, i, update), Find(pending, other);
    if other == pending[i].key { FindsOnly(pending, other, i); }
    if j < |pending| && j != i {
      FindsOnly(after, other, if |after| == |pending| || j < i then j else j - 1);
    } else if j == i && |after| == |pending| {
      FindsOnly(after, other, i);
    }
  }

  lemma {:induction false} PushWaits(pending: seq<Pending>, p: Pending, other: Key)
    requires DistinctKeys(pending) && Find(pending, p.key) == |pending|
    ensures Lookup(pending + [p], other) == if other != p.key then Lookup(pending, other) else Some(p.edge)
  {
    var j := Find(pending, other);
    if j < |pending| { FindsOnly(pending + [p], other, j); } else if other == p.key { FindsOnly(pending + [p], other, |pending|); }
  }

  /** What a call that does not evict leaves waiting: for its own key what is not complete, and
      for all other keys what was there. */
  lemma {:induction false} AnswerWaits(s: Store, config: Config, key: Key, update: Edge -> Edge, now: int, other: Key)
    requires DistinctKeys(s.pending) && (Find(s.pending, key) == |s.pending| ==> |s.pending| < config.size)
    ensures var before := Lookup(s.pending, key); var edge := update(if before.Some? then before.value else ZERO_EDGE);
      var r := Answer(s, config, key, update, now);
      && DistinctKeys(r.store.pending) && r.completed == (if IsComplete(edge) then Some(edge) else None)
      && Lookup(r.store.pending, other)
         == if other != key then Lookup(s.pending, other) else if IsComplete(edge) then None else Some(edge)
  {
    var i := Find(s.pending, key);
    if i < |s.pending| {
      AnswerToHit(s, config, key, update, now);
      HitWaits(s.pending, i, update, other);
    } else {
      AnswerToMiss(s, config, key, update, now);
      PushWaits(s.pending, Pending(s.inserted, key, update(ZERO_EDGE), config.Deadline(now)), other);
    }
  }

  ghost function KeySet(pending: seq<Pending>): (keys: set<Key>)
    requires DistinctKeys(pending)
    ensures |keys| == |pending|
    ensures forall k :: k in keys <==> Find(pending, k) < |pending|
  {
    if pending == [] then {}
    else
      var last := |pending| - 1;
      KeySetStep(pending);
      KeySet(pending[..last]) + {pending[last].key}
  }

  lemma {:induction false} KeySetStep(pending: seq<Pending>)
    requires pending != [] && DistinctKeys(pending)
    ensures var last := |pending| - 1; Find(pending[..last], pending[last].key) == last
    ensures forall k :: Find(pending, k) < |pending| <==>
      Find(pending[..|pending| - 1], k) < |pending| - 1 || k == pending[|pending| - 1].key
  {
    forall k ensures Find(pending, k) < |pending| <==>
      Find(pending[..|pending| - 1], k) < |pending| - 1 || k == pending[|pending| - 1].key
    {
      FindInPrefix(pending, k);
    }
  }

  ghost function PairKeys(pairs: seq<Pair>): (keys: set<Key>)
    ensures |keys| <= |pairs|
    ensures forall k :: k in keys <==> IsPairKey(pairs, k)
  {
    if pairs == [] then {}
    else
      var last := |pairs| - 1;
      var keys := PairKeys(pairs[..last]) + {KeyOf(pairs[last].client)};
      PairKeyStep(pairs);
      keys
  }

  lemma PairKeyStep(pairs: seq<Pair>)
    requires pairs != []
    ensures forall k :: IsPairKey(pairs, k) <==>
      IsPairKey(pairs[..|pairs| - 1], k) || k == KeyOf(pairs[|pairs| - 1].client)
  {
    var last := |pairs| - 1;
    forall k ensures IsPairKey(pairs, k) <==> IsPairKey(pairs[..last], k) || k == KeyOf(pairs[last].client) {
      if i :| 0 <= i < |pairs| && KeyOf(pairs[i].client) == k && i < last {
        assert KeyOf(pairs[..last][i].client) == k;
      }
      if i :| 0 <= i < last && KeyOf(pairs[..last][i].client) == k {
        assert KeyOf(pairs[i].client) == k;
      }
    }
  }

  /** With room for all pairs there is room for another one. */
  lemma {:induction false} RoomForOne(pending: seq<Pending>, pairs: seq<Pair>, key: Key)
    requires DistinctKeys(pending) && forall i :: 0 <= i < |pending| ==> IsPairKey(pairs, pending[i].key)
    requires IsPairKey(pairs, key)
    ensures |pending| <= |pairs|
    ensures Find(pending, key) == |pending| ==> |pending| < |pairs|
  {
    forall k | k in KeySet(pending) ensures k in PairKeys(pairs) {
      assert pending[Find(pending, k)].key == k;
    }
    if Find(pending, key) == |pending| {
      SubsetSize(KeySet(pending) + {key}, PairKeys(pairs));
    } else {
      SubsetSize(KeySet(pending), PairKeys(pairs));
    }
  }

  lemma BothStep(halves: seq<Half>, h: Half, i: nat)
    requires h !in halves
    ensures Both(halves + [h], i) <==> Both(halves, i) || (i == h.pair && Half(i, !h.isClient) in halves)
    ensures i == h.pair ==> !Both(halves, i)
  {
  }

  /** Another half completes its own pair at most. */
  lemma {:induction false} DoneStep(edges: seq<Edge>, halves: seq<Half>, h: Half, n: nat)
    requires n <= |edges| && h !in halves
    ensures Done(edges, halves + [h], n)
         == if h.pair < n && Half(h.pair, !h.isClient) in halves then Done(edges, halves, n) + multiset{edges[h.pair]}
            else Done(edges, halves, n)
  {
    if n > 0 {
      DoneStep(edges, halves, h, n - 1);
      BothStep(halves, h, n - 1);
    }
  }

  lemma ExpectedStep(pair: Pair, i: nat, halves: seq<Half>, h: Half)
    requires h !in halves
    ensures i != h.pair ==> Expected(pair, i, halves + [h]) == Expected(pair, i, halves)
    ensures i == h.pair ==>
      Expected(pair, i, halves) == (if Half(i, !h.isClient) in halves then Some(pair.Alone(!h.isClient)) else None)
      && Expected(pair, i, halves + [h]) == (if Half(i, !h.isClient) in halves then None else Some(pair.Alone(h.isClient)))
  {
    assert forall x :: x in halves + [h] <==> x in halves || x == h;
  }

  /** A half completes the edge if the other half waits, with the same result in either order;
      otherwise it waits. */
  lemma HalfCompletes(pair: Pair, isClient: bool)
    requires pair.Matches() && pair.client.project == pair.server.project
    ensures UpdateOf(pair.Side(isClient))(pair.Alone(!isClient)) == pair.Merged() && IsComplete(pair.Merged())
    ensures !IsComplete(pair.Alone(isClient)) && Counts(pair.Side(isClient))
    ensures KeyOf(pair.Side(isClient)) == KeyOf(pair.client)
  {
    SidesCommuteIff(pair);
  }

  predicate AllPairKeys(pending: seq<Pending>, pairs: seq<Pair>) {
    forall i :: 0 <= i < |pending| ==> IsPairKey(pairs, pending[i].key)
  }

  /** What a call leaves waiting in a shard with room for all pairs. */
  ghost predicate Leaves(s: Store, after: Store, key: Key, edge: Edge) {
    && DistinctKeys(after.pending)
    && forall other :: Lookup(after.pending, other)
         == if other != key then Lookup(s.pending, other) else if IsComplete(edge) then None else Some(edge)
  }

  lemma AnswerLeaves(s: Store, config: Config, key: Key, update: Edge -> Edge, now: int, pairs: seq<Pair>)
    requires DistinctKeys(s.pending) && AllPairKeys(s.pending, pairs) && IsPairKey(pairs, key) && |pairs| <= config.size
    ensures var before := Lookup(s.pending, key); var edge := update(if before.Some? then before.value else ZERO_EDGE);
      var r := Answer(s, config, key, update, now);
      && Leaves(s, r.store, key, edge) && AllPairKeys(r.store.pending, pairs)
      && r.completed == (if IsComplete(edge) then Some(edge) else None)
  {
    RoomForOne(s.pending, pairs, key);
    var r := Answer(s, config, key, update, now);
    var before := Lookup(s.pending, key);
    var edge := update(if before.Some? then before.value else ZERO_EDGE);
    AnswerWaits(s, config, key, update, now, key);
    forall other ensures Lookup(r.store.pending, other)
      == if other != key then Lookup(s.pending, other) else if IsComplete(edge) then None else Some(edge)
    {
      AnswerWaits(s, config, key, update, now, other);
    }
  }

  lemma WaitingAfter(setup: Setup, graph: Graph, key: Key, edge: Edge, store: Store, other: Key)
    requires |graph.shards| > 0
    requires Leaves(graph.shards[ShardOf(setup, |graph.shards|, key.traceID)], store, key, edge)
    ensures Waiting(setup, graph.(shards := graph.shards[ShardOf(setup, |graph.shards|, key.traceID) := store]), other)
         == if other != key then Waiting(setup, graph, other) else if IsComplete(edge) then None else Some(edge)
  {
  }

  /** The edge that a half makes: the merged one if the other half waits. */
  function EdgeOfHalf(pair: Pair, halves: seq<Half>, h: Half): Edge {
    if Half(h.pair, !h.isClient) in halves then pair.Merged() else pair.Alone(h.isClient)
  }

  lemma ArrivalInShard(setup: Setup, graph: Graph, pairs: seq<Pair>, halves: seq<Half>, h: Half, now: int)
    requires |graph.shards| > 0 && Disjoint(pairs) && Good(setup, graph, pairs, halves)
    requires h !in halves && h.pair < |pairs| && |pairs| <= setup.config.size
    ensures var pair := pairs[h.pair]; var span, key := pair.Side(h.isClient), KeyOf(pair.client);
      var s := ShardOf(setup, |graph.shards|, key.traceID);
      var r := Answer(graph.shards[s], setup.config, key, UpdateOf(span), now);
      var edge := EdgeOfHalf(pair, halves, h);
      && Processed(setup, graph, span, now) == Graph(graph.shards[s := r.store], Appended(graph.edges, r.completed))
      && Leaves(graph.shards[s], r.store, key, edge) && AllPairKeys(r.store.pending, pairs)
      && (IsComplete(edge) <==> Half(h.pair, !h.isClient) in halves)
      && r.completed == (if IsComplete(edge) then Some(edge) else None)
  {
    var pair := pairs[h.pair];
    var key, span := KeyOf(pair.client), pair.Side(h.isClient);
    HalfCompletes(pair, h.isClient);
    ExpectedStep(pair, h.pair, halves, h);
    assert Waiting(setup, graph, key) == Expected(pair, h.pair, halves);
    AnswerLeaves(graph.shards[ShardOf(setup, |graph.shards|, key.traceID)], setup.config, key, UpdateOf(span), now, pairs);
  }

  lemma ArrivalWaits(setup: Setup, graph: Graph, pairs: seq<Pair>, halves: seq<Half>, h: Half, now: int, i: nat)
    requires |graph.shards| > 0 && Disjoint(pairs) && Good(setup, graph, pairs, halves)
    requires h !in halves && h.pair < |pairs| && |pairs| <= setup.config.size && i < |pairs|
    ensures Waiting(setup, Processed(setup, graph, pairs[h.pair].Side(h.isClient), now), KeyOf(pairs[i].client))
         == Expected(pairs[i], i, halves + [h])
  {
    var key, span := KeyOf(pairs[h.pair].client), pairs[h.pair].Side(h.isClient);
    var r := Answer(graph.shards[ShardOf(setup, |graph.shards|, key.traceID)], setup.config, key, UpdateOf(span), now);
    ArrivalInShard(setup, graph, pairs, halves, h, now);
    WaitingAfter(setup, graph, key, EdgeOfHalf(pairs[h.pair], halves, h), r.store, KeyOf(pairs[i].client));
    ExpectedStep(pairs[i], i, halves, h);
    KeysApart(pairs, i, h.pair);
  }

  lemma {:induction false} ArrivalEmits(setup: Setup, graph: Graph, pairs: seq<Pair>, halves: seq<Half>, h: Half, now: int)
    requires |graph.shards| > 0 && Disjoint(pairs) && Good(setup, graph, pairs, halves)
    requires h !in halves && h.pair < |pairs| && |pairs| <= setup.config.size
    ensures multiset(Processed(setup, graph, pairs[h.pair].Side(h.isClient), now).edges)
         == Done(MergedAll(pairs), halves + [h], |pairs|)
  {
    ArrivalInShard(setup, graph, pairs, halves, h, now);
    DoneStep(MergedAll(pairs), halves, h, |pairs|);
  }

  lemma ArrivalKeepsShards(setup: Setup, graph: Graph, pairs: seq<Pair>, halves: seq<Half>, h: Half, now: int)
    requires |graph.shards| > 0 && Disjoint(pairs) && Good(setup, graph, pairs, halves)
    requires h !in halves && h.pair < |pairs| && |pairs| <= setup.config.size
    ensures var after := Processed(setup, graph, pairs[h.pair].Side(h.isClient), now);
      && |after.shards| == |graph.shards|
      && forall s :: 0 <= s < |after.shards| ==>
           DistinctKeys(after.shards[s].pending) && AllPairKeys(after.shards[s].pending, pairs)
  {
    ArrivalInShard(setup, graph, pairs, halves, h, now);
  }

  lemma ArrivalKeepsGood(setup: Setup, graph: Graph, pairs: seq<Pair>, halves: seq<Half>, h: Half, now: int)
    requires |graph.shards| > 0 && Disjoint(pairs) && Good(setup, graph, pairs, halves)
    requires h !in halves && h.pair < |pairs| && |pairs| <= setup.config.size
    ensures Good(setup, Processed(setup, graph, pairs[h.pair].Side(h.isClient), now), pairs, halves + [h])
  {
    ArrivalKeepsShards(setup, graph, pairs, halves, h, now);
    ArrivalEmits(setup, graph, pairs, halves, h, now);
    var after := Processed(setup, graph, pairs[h.pair].Side(h.isClient), now);
    forall i: nat | i < |pairs| ensures Waiting(setup, after, KeyOf(pairs[i].client)) == Expected(pairs[i], i, halves + [h]) {
      ArrivalWaits(setup, graph, pairs, halves, h, now, i);
    }
  }

  lemma KeysApart(pairs: seq<Pair>, i: nat, j: nat)
    requires Disjoint(pairs) && i < |pairs| && j < |pairs|
    ensures KeyOf(pairs[i].client) == KeyOf(pairs[j].client) <==> i == j
  {
  }

  lemma {:induction false} AfterIsGood(setup: Setup, n: nat, pairs: seq<Pair>, halves: seq<Half>, nows: nat -> int)
    requires n > 0 && Disjoint(pairs) && Arrivals(pairs, halves) && |pairs| <= setup.config.size
    ensures Good(setup, After(setup, n, pairs, halves, nows), pairs, halves)
  {
    if halves == [] {
      NothingDone(MergedAll(pairs), |pairs|);
    } else {
      var last, before := halves[|halves| - 1], halves[..|halves| - 1];
      assert before + [last] == halves;
      AfterIsGood(setup, n, pairs, before, nows);
      ArrivalKeepsGood(setup, After(setup, n, pairs, before, nows), pairs, before, last, nows(|before|));
    }
  }

  /** With room for all pairs no call of the run evicts, so that the run is also one of the code as
      it is built. */
  lemma {:induction false} NothingEvicts(setup: Setup, n: nat, pairs: seq<Pair>, halves: seq<Half>, nows: nat -> int, i: nat)
    requires n > 0 && Disjoint(pairs) && Arrivals(pairs, halves) && |pairs| <= setup.config.size && i < |halves|
    ensures var graph, span := After(setup, n, pairs, halves[..i], nows), pairs[halves[i].pair].Side(halves[i].isClient);
      !Evicts(graph.shards[ShardOf(setup, n, span.traceID)], setup.config, KeyOf(span), UpdateOf(span), nows(i))
  {
    var pair := pairs[halves[i].pair];
    var span := pair.Side(halves[i].isClient);
    AfterIsGood(setup, n, pairs, halves[..i], nows);
    assert pair.Matches() && KeyOf(span) == KeyOf(pair.client);
    var s := After(setup, n, pairs, halves[..i], nows).shards[ShardOf(setup, n, span.traceID)];
    RoomForOne(s.pending, pairs, KeyOf(span));
  }

  lemma {:induction false} NothingDone(edges: seq<Edge>, n: nat)
    requires n <= |edges|
    ensures Done(edges, [], n) == multiset{}
  {
    if n > 0 { NothingDone(edges, n - 1); }
  }

  lemma PrefixMultiset<T>(list: seq<T>, n: nat)
    requires 0 < n <= |list|
    ensures multiset(list[..n]) == multiset(list[..n - 1]) + multiset{list[n - 1]}
  {
    assert list[..n] == list[..n - 1] + [list[n - 1]];
  }

  lemma {:induction false} AllDone(edges: seq<Edge>, halves: seq<Half>, n: nat)
    requires n <= |edges| && forall i: nat :: i < |edges| ==> Both(halves, i)
    ensures Done(edges, halves, n) == multiset(edges[..n])
  {
    if n > 0 {
      AllDone(edges, halves, n - 1);
      PrefixMultiset(edges, n);
    }
  }

  lemma NoneWaits(setup: Setup, graph: Graph, pairs: seq<Pair>, halves: seq<Half>, i: nat)
    requires |graph.shards| > 0 && Good(setup, graph, pairs, halves) && i < |pairs| && Both(halves, i)
    ensures Waiting(setup, graph, KeyOf(pairs[i].client)) == None
  {
  }

  lemma EmptyPending(setup: Setup, graph: Graph, pairs: seq<Pair>, halves: seq<Half>, s: nat)
    requires |graph.shards| > 0 && Good(setup, graph, pairs, halves) && s < |graph.shards|
    requires forall i: nat :: i < |pairs| ==> Both(halves, i)
    requires forall k :: 0 <= k < |graph.shards[s].pending| ==>
      ShardOf(setup, |graph.shards|, graph.shards[s].pending[k].key.traceID) == s
    ensures graph.shards[s].pending == []
  {
    if graph.shards[s].pending != [] {
      var i := PairOfFirst(graph.shards[s].pending, pairs);
      NoneWaits(setup, graph, pairs, halves, i);
      FirstWaits(setup, graph, s);
    }
  }

  lemma PairOfFirst(pending: seq<Pending>, pairs: seq<Pair>) returns (i: nat)
    requires pending != [] && AllPairKeys(pending, pairs)
    ensures i < |pairs| && KeyOf(pairs[i].client) == pending[0].key
  {
    assert IsPairKey(pairs, pending[0].key);
    i :| 0 <= i < |pairs| && KeyOf(pairs[i].client) == pending[0].key;
  }

  lemma FirstWaits(setup: Setup, graph: Graph, s: nat)
    requires |graph.shards| > 0 && s < |graph.shards| && graph.shards[s].pending != []
    requires DistinctKeys(graph.shards[s].pending)
    requires ShardOf(setup, |graph.shards|, graph.shards[s].pending[0].key.traceID) == s
    ensures Waiting(setup, graph, graph.shards[s].pending[0].key).Some?
  {
    FindsOnly(graph.shards[s].pending, graph.shards[s].pending[0].key, 0);
  }

  /** What waits in a shard belongs to it. */
  predicate InOwnShard(setup: Setup, graph: Graph, s: nat)
    requires |graph.shards| > 0 && s < |graph.shards|
  {
    forall k :: 0 <= k < |graph.shards[s].pending| ==>
      ShardOf(setup, |graph.shards|, graph.shards[s].pending[k].key.traceID) == s
  }

  lemma ProcessedInOwnShard(setup: Setup, graph: Graph, span: SpanIndex, now: int, s: nat)
    requires |graph.shards| > 0 && s < |graph.shards| && InOwnShard(setup, graph, s)
    ensures InOwnShard(setup, Processed(setup, graph, span, now), s)
  {
  }

  lemma {:induction false} AfterInOwnShard(setup: Setup, n: nat, pairs: seq<Pair>, halves: seq<Half>, nows: nat -> int, s: nat)
    requires n > 0 && Arrivals(pairs, halves) && s < n
    ensures InOwnShard(setup, After(setup, n, pairs, halves, nows), s)
  {
    if halves != [] {
      var last, before := halves[|halves| - 1], halves[..|halves| - 1];
      AfterInOwnShard(setup, n, pairs, before, nows, s);
      ProcessedInOwnShard(setup, After(setup, n, pairs, before, nows), pairs[last.pair].Side(last.isClient), nows(|before|), s);
    }
  }

  /** However the two spans of each of the pairs arrive, on however many shards, if every shard
      has room for all pairs: one edge is passed on for each pair, the same in every order, and
      nothing is left waiting. */
  lemma {:induction false} OrderDoesNotMatter(setup: Setup, n: nat, pairs: seq<Pair>, halves: seq<Half>, nows: nat -> int)
    requires n > 0 && Disjoint(pairs) && |pairs| <= setup.config.size
    requires Arrivals(pairs, halves) && forall i: nat :: i < |pairs| ==> Both(halves, i)
    ensures var graph := After(setup, n, pairs, halves, nows);
      && multiset(graph.edges) == multiset(MergedAll(pairs))
      && forall s :: 0 <= s < n ==> graph.shards[s].pending == []
  {
    var graph := After(setup, n, pairs, halves, nows);
    AfterIsGood(setup, n, pairs, halves, nows);
    AllDone(MergedAll(pairs), halves, |pairs|);
    assert MergedAll(pairs)[..|pairs|] == MergedAll(pairs);
    forall s | 0 <= s < n ensures graph.shards[s].pending == [] {
      AfterInOwnShard(setup, n, pairs, halves, nows, s);
      EmptyPending(setup, graph, pairs, halves, s);
    }
  }
}
