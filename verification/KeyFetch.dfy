/** Fetching key shares from weighted key servers until a threshold is met: fetchKeys of
    packages/seal/src/client.ts. The requests run concurrently; each one is a single atomic step
    when its reply or failure arrives, and the steps interleave in any order. */
module KeyFetch {
  import opened Ibe
  import opened Results
  import opened Seal
  import opened Interpolation
  import opened Sequences

  /** The entries of the client's configuration map, in order. */
  datatype KeyServerConfig = KeyServerConfig(objectId: ObjectId, weight: nat)

  /** The constructor of the client rejects duplicate object ids. */
  ghost predicate ValidConfigs(configs: seq<KeyServerConfig>) {
    Distinct(ConfigIds(configs))
  }

  function ConfigIds(configs: seq<KeyServerConfig>): (r: seq<ObjectId>)
    ensures |r| == |configs| && forall i :: 0 <= i < |r| ==> r[i] == configs[i].objectId
  {
    Map((config: KeyServerConfig) => config.objectId, configs)
  }

  /** The configured weight of a server, zero for one that is not configured. */
  function Weight(configs: seq<KeyServerConfig>, id: ObjectId): nat {
    if configs == [] then 0
    else if configs[0].objectId == id then configs[0].weight
    else Weight(configs[1..], id)
  }

  function TotalWeight(configs: seq<KeyServerConfig>): nat {
    if configs == [] then 0 else configs[0].weight + TotalWeight(configs[1..])
  }

  /** The summed weight of a list of servers. */
  function WeightOf(configs: seq<KeyServerConfig>, ids: seq<ObjectId>): nat {
    if ids == [] then 0 else Weight(configs, ids[0]) + WeightOf(configs, ids[1..])
  }

  lemma {:induction false} WeightOfConcat(configs: seq<KeyServerConfig>, a: seq<ObjectId>, b: seq<ObjectId>)
    ensures WeightOf(configs, a + b) == WeightOf(configs, a) + WeightOf(configs, b)
  {
    if a == [] {
      assert a + b == b;
    } else {
      WeightOfConcat(configs, a[1..], b);
      assert (a + b)[1..] == a[1..] + b;
    }
  }

  /** The list without the first occurrence of an id. */
  function Without(ids: seq<ObjectId>, id: ObjectId): seq<ObjectId> {
    if ids == [] then []
    else if ids[0] == id then ids[1..]
    else [ids[0]] + Without(ids[1..], id)
  }

  lemma {:induction false} WithoutRemoves(configs: seq<KeyServerConfig>, ids: seq<ObjectId>, id: ObjectId)
    requires id in ids && Distinct(ids)
    ensures WeightOf(configs, Without(ids, id)) == WeightOf(configs, ids) - Weight(configs, id)
    ensures Distinct(Without(ids, id)) && id !in Without(ids, id)
    ensures forall other :: other in Without(ids, id) <==> other in ids && other != id
    ensures |Without(ids, id)| == |ids| - 1
  {
    assert ids == [ids[0]] + ids[1..];
    if ids[0] != id {
      WithoutRemoves(configs, ids[1..], id);
      var rest := Without(ids[1..], id);
      assert ([ids[0]] + rest)[1..] == rest;
      assert ids[0] !in ids[1..];
    }
  }

  lemma {:induction false} SubsetWeighsLess(configs: seq<KeyServerConfig>, a: seq<ObjectId>, b: seq<ObjectId>)
    requires Distinct(a) && Distinct(b) && forall id :: id in a ==> id in b
    ensures WeightOf(configs, a) <= WeightOf(configs, b) && |a| <= |b|
    decreases |a|
  {
    hide Weight;
    if a != [] {
      assert a == [a[0]] + a[1..];
      assert a[0] !in a[1..];
      WithoutRemoves(configs, b, a[0]);
      SubsetWeighsLess(configs, a[1..], Without(b, a[0]));
    }
  }

  // ---------- The state of one call of fetchKeys ----------

  datatype Server<!G2> = Server(objectId: ObjectId, pk: G2)

  /** Why the outstanding requests were aborted. */
  datatype AbortState = Running | ThresholdReached | TooManyFailures

  /** What the call reads and never changes. */
  datatype Request<!G1, !G2, !GT, !Scalar> = Request(
    suite: Suite<G1, G2, GT, Scalar>,
    configs: seq<KeyServerConfig>,
    servers: seq<Server<G2>>,
    fullIds: seq<string>,
    threshold: int)

  /** What the call and the requests it started share and change. The servers counted into
      completedWeight are recorded beside it. */
  datatype State<!G1> = State(
    cachedKeys: KeyStore<G1>,
    completedWeight: int,
    remainingWeight: int,
    completed: seq<ObjectId>,
    pending: seq<ObjectId>,
    errors: nat,
    abort: AbortState)

  /** A server's answer: the keys in the order sent, None for one whose bytes are not a point, or a
      failed request. */
  datatype Reply<!G1> = Keys(keys: seq<(string, Option<G1>)>) | RequestFailed

  function ServerIds<G2>(servers: seq<Server<G2>>): (r: seq<ObjectId>)
    ensures |r| == |servers| && forall i :: 0 <= i < |r| ==> r[i] == servers[i].objectId
  {
    Map((server: Server<G2>) => server.objectId, servers)
  }

  /** The retrieved servers are the configured ones, in the same order, and the threshold is in range. */
  ghost predicate ValidRequest<G1, G2, GT, Scalar>(q: Request<G1, G2, GT, Scalar>) {
    && ValidConfigs(q.configs)
    && ServerIds(q.servers) == ConfigIds(q.configs)
    && 1 <= q.threshold <= TotalWeight(q.configs)
  }

  predicate HoldsAll<G1>(cachedKeys: KeyStore<G1>, fullIds: seq<string>, id: ObjectId) {
    forall k :: 0 <= k < |fullIds| ==> (fullIds[k], id) in cachedKeys
  }

  /** The servers of a list that hold keys for all ids, or those that do not. */
  function Select<G1>(ids: seq<ObjectId>, cachedKeys: KeyStore<G1>, fullIds: seq<string>, complete: bool)
    : seq<ObjectId>
  {
    if ids == [] then []
    else if HoldsAll(cachedKeys, fullIds, ids[0]) == complete
        then [ids[0]] + Select(ids[1..], cachedKeys, fullIds, complete)
    else Select(ids[1..], cachedKeys, fullIds, complete)
  }

  /** The state once the cache was inspected and before any reply. */
  function Initial<G1, G2, GT, Scalar>(q: Request<G1, G2, GT, Scalar>, cachedKeys: KeyStore<G1>): State<G1> {
    var completed := Select(ServerIds(q.servers), cachedKeys, q.fullIds, true);
    var pending := Select(ServerIds(q.servers), cachedKeys, q.fullIds, false);
    State(cachedKeys, WeightOf(q.configs, completed), WeightOf(q.configs, pending), completed, pending, 0, Running)
  }

  /** Checks and caches the keys of a reply, stopping at the first that is not a point. */
  function CacheKeys<G1, G2, GT(==), Scalar>(s: Suite<G1, G2, GT, Scalar>, server: Server<G2>,
                                             keys: seq<(string, Option<G1>)>,
                                             cachedKeys: KeyStore<G1>): (KeyStore<G1>, bool)
  {
    if keys == [] then (cachedKeys, true)
    else
      match keys[0].1
      case None => (cachedKeys, false)
      case Some(key) =>
        if VerifyUserSecretKey(s, key, keys[0].0, server.pk)
        then CacheKeys(s, server, keys[1..], cachedKeys[(keys[0].0, server.objectId) := key])
        else CacheKeys(s, server, keys[1..], cachedKeys)
  }

  function Abort(current: AbortState, reason: AbortState): AbortState {
    if current == Running then reason else current
  }

  /** The body of the try block and of the catch clause. */
  function Receive<G1, G2, GT(==), Scalar>(q: Request<G1, G2, GT, Scalar>, st: State<G1>, server: Server<G2>,
                                           reply: Reply<G1>): State<G1>
  {
    match reply
    case RequestFailed => if st.abort == Running then st.(errors := st.errors + 1) else st
    case Keys(keys) =>
      var (cachedKeys, parsed) := CacheKeys(q.suite, server, keys, st.cachedKeys);
      if !parsed then
        if st.abort == Running then st.(cachedKeys := cachedKeys, errors := st.errors + 1)
            else st.(cachedKeys := cachedKeys)
      else if HoldsAll(cachedKeys, q.fullIds, server.objectId) then
        var completedWeight := st.completedWeight + Weight(q.configs, server.objectId);
        st.(cachedKeys := cachedKeys, completedWeight := completedWeight, completed := st.completed + [server.objectId],
            abort := if completedWeight >= q.threshold then Abort(st.abort, ThresholdReached) else st.abort)
      else st.(cachedKeys := cachedKeys)
  }

  /** The finally clause. */
  function Retire<G1, G2, GT, Scalar>(q: Request<G1, G2, GT, Scalar>, st: State<G1>, id: ObjectId): State<G1> {
    var remainingWeight := st.remainingWeight - Weight(q.configs, id);
    st.(remainingWeight := remainingWeight, pending := Without(st.pending, id),
        abort := if remainingWeight < q.threshold - st.completedWeight then Abort(st.abort, TooManyFailures)
            else st.abort)
  }

  /** One request settling. */
  function Settle<G1, G2, GT(==), Scalar>(q: Request<G1, G2, GT, Scalar>, st: State<G1>, server: Server<G2>,
                                          reply: Reply<G1>): State<G1>
  {
    Retire(q, Receive(q, st, server, reply), server.objectId)
  }

  datatype Event<!G1, !G2> =
    | Settled(server: Server<G2>, reply: Reply<G1>)
    | Learned(server: Server<G2>, fullId: string, key: G1)  // a key that a concurrent call of fetchKeys caches

  function Step<G1, G2, GT(==), Scalar>(q: Request<G1, G2, GT, Scalar>, st: State<G1>, e: Event<G1, G2>): State<G1> {
    match e
    case Settled(server, reply) => Settle(q, st, server, reply)
    case Learned(server, fullId, key) => st.(cachedKeys := st.cachedKeys[(fullId, server.objectId) := key])
  }

  /** Each outstanding request settles once, and whatever is cached passed the verification equation. */
  ghost predicate Enabled<G1, G2, GT, Scalar>(q: Request<G1, G2, GT, Scalar>, st: State<G1>, e: Event<G1, G2>) {
    && e.server in q.servers
    && match e
       case Settled(server, _) => server.objectId in st.pending
       case Learned(server, fullId, key) => VerifyUserSecretKey(q.suite, key, fullId, server.pk)
  }

  ghost predicate EnabledRun<G1, G2, GT, Scalar>(q: Request<G1, G2, GT, Scalar>, st: State<G1>,
                                                 events: seq<Event<G1, G2>>)
    decreases |events|
  {
    events == [] || (Enabled(q, st, events[0]) && EnabledRun(q, Step(q, st, events[0]), events[1..]))
  }

  function Run<G1, G2, GT(==), Scalar>(q: Request<G1, G2, GT, Scalar>, st: State<G1>, events: seq<Event<G1, G2>>)
    : State<G1>
    decreases |events|
  {
    if events == [] then st else Run(q, Step(q, st, events[0]), events[1..])
  }

  // ---------- The invariant ----------

  /** Every cached key passes the verification equation of the server it is cached for. */
  ghost predicate CacheVerified<G1, G2, GT, Scalar>(s: Suite<G1, G2, GT, Scalar>, servers: seq<Server<G2>>,
                                                    cachedKeys: KeyStore<G1>) {
    forall fullId: string, i: nat :: i < |servers| && (fullId, servers[i].objectId) in cachedKeys ==>
      VerifyUserSecretKey(s, cachedKeys[(fullId, servers[i].objectId)], fullId, servers[i].pk)
  }

  /** The counters are the summed weights of disjoint lists of servers, and the abort state says
      exactly whether the threshold is reached, still attainable, or out of reach. */
  ghost predicate Counted<G1, G2, GT, Scalar>(q: Request<G1, G2, GT, Scalar>, st: State<G1>) {
    && Distinct(st.completed + st.pending)
    && (forall id :: id in st.completed + st.pending ==> id in ServerIds(q.servers))
    && st.completedWeight == WeightOf(q.configs, st.completed)
    && st.remainingWeight == WeightOf(q.configs, st.pending)
    && (forall id :: id in st.completed ==> HoldsAll(st.cachedKeys, q.fullIds, id))
    && st.abort == if st.completedWeight >= q.threshold then ThresholdReached
                   else if st.completedWeight + st.remainingWeight >= q.threshold then Running
                   else TooManyFailures
  }

  lemma {:induction false} CacheKeysGrows<G1, G2, GT, Scalar>(s: Suite<G1, G2, GT, Scalar>, servers: seq<Server<G2>>,
                                                             server: Server<G2>,
                                                             keys: seq<(string, Option<G1>)>, cachedKeys: KeyStore<G1>)
    requires Distinct(ServerIds(servers)) && server in servers
    ensures cachedKeys.Keys <= CacheKeys(s, server, keys, cachedKeys).0.Keys
    ensures CacheVerified(s, servers, cachedKeys) ==>
        CacheVerified(s, servers, CacheKeys(s, server, keys, cachedKeys).0)
    ensures forall key: KeyCacheKey :: key.1 != server.objectId ==>
        (key in CacheKeys(s, server, keys, cachedKeys).0 <==> key in cachedKeys)
    decreases |keys|
  {
    hide VerifyUserSecretKey;
    if keys != [] && keys[0].1.Some? {
      var key := keys[0].1.value;
      var updated := cachedKeys[(keys[0].0, server.objectId) := key];
      if VerifyUserSecretKey(s, key, keys[0].0, server.pk) {
        CacheKeysGrows(s, servers, server, keys[1..], updated);
        OneServerPerId(servers, server);
      } else {
        CacheKeysGrows(s, servers, server, keys[1..], cachedKeys);
      }
    }
  }

  lemma OneServerPerId<G2>(servers: seq<Server<G2>>, server: Server<G2>)
    requires Distinct(ServerIds(servers)) && server in servers
    ensures forall i :: 0 <= i < |servers| && servers[i].objectId == server.objectId ==> servers[i] == server
  {
    var j :| 0 <= j < |servers| && servers[j] == server;
    assert ServerIds(servers)[j] == server.objectId;
    forall i | 0 <= i < |servers| && servers[i].objectId == server.objectId ensures servers[i] == server {
      assert ServerIds(servers)[i] == ServerIds(servers)[j];
    }
  }

  lemma {:induction false} SelectSelects<G1>(ids: seq<ObjectId>, cachedKeys: KeyStore<G1>, fullIds: seq<string>,
                                             complete: bool)
    requires Distinct(ids)
    ensures var chosen := Select(ids, cachedKeys, fullIds, complete);
            && Distinct(chosen)
            && (forall id :: id in chosen <==> id in ids && HoldsAll(cachedKeys, fullIds, id) == complete)
  {
    hide HoldsAll;
    if ids != [] {
      SelectSelects(ids[1..], cachedKeys, fullIds, complete);
      assert ids[0] !in ids[1..];
      assert ids == [ids[0]] + ids[1..];
    }
  }

  lemma {:induction false} SelectWeights<G1>(configs: seq<KeyServerConfig>, ids: seq<ObjectId>,
                                             cachedKeys: KeyStore<G1>, fullIds: seq<string>)
    ensures WeightOf(configs, Select(ids, cachedKeys, fullIds, true))
        + WeightOf(configs, Select(ids, cachedKeys, fullIds, false))
            == WeightOf(configs, ids)
  {
    hide HoldsAll, Weight;
    if ids != [] {
      SelectWeights(configs, ids[1..], cachedKeys, fullIds);
      var complete := HoldsAll(cachedKeys, fullIds, ids[0]);
      var rest := Select(ids[1..], cachedKeys, fullIds, complete);
      assert Select(ids, cachedKeys, fullIds, complete) == [ids[0]] + rest;
      assert ([ids[0]] + rest)[1..] == rest;
    }
  }

  lemma SelectPartitions<G1>(configs: seq<KeyServerConfig>, ids: seq<ObjectId>, cachedKeys: KeyStore<G1>,
                             fullIds: seq<string>)
    requires Distinct(ids)
    ensures var yes, no := Select(ids, cachedKeys, fullIds, true), Select(ids, cachedKeys, fullIds, false);
            && Distinct(yes + no)
            && (forall id :: id in yes <==> id in ids && HoldsAll(cachedKeys, fullIds, id))
            && (forall id :: id in no <==> id in ids && !HoldsAll(cachedKeys, fullIds, id))
            && WeightOf(configs, yes) + WeightOf(configs, no) == WeightOf(configs, ids)
  {
    SelectSelects(ids, cachedKeys, fullIds, true);
    SelectSelects(ids, cachedKeys, fullIds, false);
    SelectWeights(configs, ids, cachedKeys, fullIds);
    hide HoldsAll, Select;
    DistinctConcat(Select(ids, cachedKeys, fullIds, true), Select(ids, cachedKeys, fullIds, false));
  }

  lemma {:induction false} WeightOfConfigIds(configs: seq<KeyServerConfig>)
    requires ValidConfigs(configs)
    ensures WeightOf(configs, ConfigIds(configs)) == TotalWeight(configs)
  {
    WeightOfSuffix(configs, 0);
    assert configs[0..] == configs;
  }

  lemma {:induction false} WeightOfSuffix(configs: seq<KeyServerConfig>, k: nat)
    requires ValidConfigs(configs) && k <= |configs|
    ensures WeightOf(configs, ConfigIds(configs[k..])) == TotalWeight(configs[k..])
    decreases |configs| - k
  {
    if k < |configs| {
      WeightOfSuffix(configs, k + 1);
      assert configs[k..][1..] == configs[k + 1..];
      assert ConfigIds(configs[k..])[1..] == ConfigIds(configs[k + 1..]);
      WeightAt(configs, k);
    }
  }

  lemma {:induction false} WeightAt(configs: seq<KeyServerConfig>, k: nat)
    requires ValidConfigs(configs) && k < |configs|
    ensures Weight(configs, configs[k].objectId) == configs[k].weight
  {
    if k > 0 {
      assert ConfigIds(configs)[0] != ConfigIds(configs)[k];
      assert forall i :: 0 <= i < |configs| - 1 ==> ConfigIds(configs[1..])[i] == ConfigIds(configs)[i + 1];
      WeightAt(configs[1..], k - 1);
    }
  }

  // ---------- Every run keeps the invariant ----------

  ghost predicate Inv<G1, G2, GT, Scalar>(q: Request<G1, G2, GT, Scalar>, st: State<G1>) {
    CacheVerified(q.suite, q.servers, st.cachedKeys) && Counted(q, st)
  }

  lemma InitialInv<G1, G2, GT, Scalar>(q: Request<G1, G2, GT, Scalar>, cachedKeys: KeyStore<G1>)
    requires ValidRequest(q)
    requires Initial(q, cachedKeys).completedWeight < q.threshold
    ensures Counted(q, Initial(q, cachedKeys))
    ensures CacheVerified(q.suite, q.servers, cachedKeys) ==> Inv(q, Initial(q, cachedKeys))
    ensures var st := Initial(q, cachedKeys); st.completedWeight + st.remainingWeight == TotalWeight(q.configs)
  {
    hide VerifyUserSecretKey, HoldsAll;
    SelectPartitions(q.configs, ServerIds(q.servers), cachedKeys, q.fullIds);
    WeightOfConfigIds(q.configs);
  }

  /** What settling does to the counters, whatever the reply was. */
  lemma SettleCounts<G1, G2, GT, Scalar>(q: Request<G1, G2, GT, Scalar>, st: State<G1>, server: Server<G2>,
                                         reply: Reply<G1>)
    requires ValidRequest(q) && Counted(q, st) && server in q.servers && server.objectId in st.pending
    requires st.cachedKeys.Keys <= Receive(q, st, server, reply).cachedKeys.Keys
    ensures Counted(q, Settle(q, st, server, reply))
  {
    var id, w := server.objectId, Weight(q.configs, server.objectId);
    var mid := Receive(q, st, server, reply);
    var next := Settle(q, st, server, reply);
    hide VerifyUserSecretKey, CacheKeys, WeightOf, Weight, Without, Distinct, HoldsAll, ServerIds;
    DistinctParts(st.completed, st.pending);
    WithoutRemoves(q.configs, st.pending, id);
    if mid.completed != st.completed {
      WeightOfAppend(q.configs, st.completed, id);
      DistinctMove(st.completed, st.pending, id);
    } else {
      DistinctDrop(q.configs, st.completed, st.pending, id);
    }
    CompletedHoldKeys(q, st, server, reply);
  }

  lemma CompletedHoldKeys<G1, G2, GT, Scalar>(q: Request<G1, G2, GT, Scalar>, st: State<G1>, server: Server<G2>,
                                              reply: Reply<G1>)
    requires forall id :: id in st.completed ==> HoldsAll(st.cachedKeys, q.fullIds, id)
    requires st.cachedKeys.Keys <= Receive(q, st, server, reply).cachedKeys.Keys
    ensures var next := Receive(q, st, server, reply);
            forall id :: id in next.completed ==> HoldsAll(next.cachedKeys, q.fullIds, id)
  {
    hide CacheKeys, Weight;
    var next := Receive(q, st, server, reply);
    forall id | id in next.completed ensures HoldsAll(next.cachedKeys, q.fullIds, id) {
      if id in st.completed {
        assert forall k :: 0 <= k < |q.fullIds| ==> (q.fullIds[k], id) in st.cachedKeys.Keys;
      }
    }
  }

  lemma DistinctParts<T>(a: seq<T>, b: seq<T>)
    requires Distinct(a + b)
    ensures Distinct(a) && Distinct(b) && forall x :: x in a ==> x !in b
  {
    forall i, j | 0 <= i < j < |a| ensures a[i] != a[j] {
      assert (a + b)[i] == a[i] && (a + b)[j] == a[j];
    }
    forall i, j | 0 <= i < j < |b| ensures b[i] != b[j] {
      assert (a + b)[|a| + i] == b[i] && (a + b)[|a| + j] == b[j];
    }
    forall i, j | 0 <= i < |a| && 0 <= j < |b| ensures a[i] != b[j] {
      assert (a + b)[i] == a[i] && (a + b)[|a| + j] == b[j];
    }
  }

  lemma DistinctConcat<T>(a: seq<T>, b: seq<T>)
    requires Distinct(a) && Distinct(b) && forall x :: x in a ==> x !in b
    ensures Distinct(a + b)
  {
    forall i, j | 0 <= i < j < |a + b| ensures (a + b)[i] != (a + b)[j] {
      if i < |a| <= j {
        assert a[i] in a && b[j - |a|] in b;
      }
    }
  }

  lemma DistinctMove(a: seq<ObjectId>, b: seq<ObjectId>, id: ObjectId)
    requires Distinct(a + b) && id in b
    ensures Distinct((a + [id]) + Without(b, id))
  {
    DistinctParts(a, b);
    WithoutRemoves([], b, id);
    DistinctConcat(a, [id]);
    DistinctConcat(a + [id], Without(b, id));
  }

  lemma DistinctDrop(configs: seq<KeyServerConfig>, a: seq<ObjectId>, b: seq<ObjectId>, id: ObjectId)
    requires Distinct(a + b) && id in b
    ensures Distinct(a + Without(b, id))
  {
    DistinctParts(a, b);
    WithoutRemoves(configs, b, id);
    DistinctConcat(a, Without(b, id));
  }

  lemma StepKeepsCounted<G1, G2, GT, Scalar>(q: Request<G1, G2, GT, Scalar>, st: State<G1>, e: Event<G1, G2>)
    requires ValidRequest(q) && Counted(q, st) && Enabled(q, st, e)
    ensures Counted(q, Step(q, st, e))
  {
    hide VerifyUserSecretKey, WeightOf, Weight, Without, Distinct;
    match e {
      case Settled(server, reply) =>
        if reply.Keys? {
          CacheKeysGrows(q.suite, q.servers, server, reply.keys, st.cachedKeys);
        }
        SettleCounts(q, st, server, reply);
      case Learned(server, fullId, key) =>
        var next := Step(q, st, e);
        forall id | id in st.completed ensures HoldsAll(next.cachedKeys, q.fullIds, id) {
          assert HoldsAll(st.cachedKeys, q.fullIds, id);
        }
    }
  }

  lemma StepKeepsInv<G1, G2, GT, Scalar>(q: Request<G1, G2, GT, Scalar>, st: State<G1>, e: Event<G1, G2>)
    requires ValidRequest(q) && Inv(q, st) && Enabled(q, st, e)
    ensures Inv(q, Step(q, st, e))
  {
    StepKeepsCounted(q, st, e);
    hide VerifyUserSecretKey, Counted, WeightOf, Weight, Without, Distinct;
    match e {
      case Settled(server, reply) =>
        if reply.Keys? {
          CacheKeysGrows(q.suite, q.servers, server, reply.keys, st.cachedKeys);
        }
      case Learned(server, fullId, key) =>
        OneServerPerId(q.servers, server);
    }
  }

  lemma {:induction false} RunKeepsInv<G1, G2, GT, Scalar>(q: Request<G1, G2, GT, Scalar>, st: State<G1>,
                                                           events: seq<Event<G1, G2>>)
    requires ValidRequest(q) && Inv(q, st) && EnabledRun(q, st, events)
    ensures Inv(q, Run(q, st, events))
    decreases |events|
  {
    hide Inv, Step, Enabled;
    if events != [] {
      assert Enabled(q, st, events[0]);
      StepKeepsInv(q, st, events[0]);
      RunKeepsInv(q, Step(q, st, events[0]), events[1..]);
    }
  }

  // ---------- The outcome of fetchKeys ----------

  datatype FetchError = InvalidThreshold | NotCompleted

  /** Distinct servers of the client hold keys for all requested ids, and together weigh at least the threshold. */
  ghost predicate ThresholdCached<G1, G2, GT, Scalar>(q: Request<G1, G2, GT, Scalar>, cachedKeys: KeyStore<G1>,
                                                      holders: seq<ObjectId>) {
    && Distinct(holders)
    && (forall id :: id in holders ==> id in ServerIds(q.servers) && HoldsAll(cachedKeys, q.fullIds, id))
    && WeightOf(q.configs, holders) >= q.threshold
  }

  /** The call as a whole, for one interleaving of replies: the threshold check, the early return, the
      requests, and the check after all of them settled. */
  function FetchKeys<G1, G2, GT(==), Scalar>(q: Request<G1, G2, GT, Scalar>, cachedKeys: KeyStore<G1>,
                                             events: seq<Event<G1, G2>>)
    : (Result<(), FetchError>, State<G1>)
  {
    var start := Initial(q, cachedKeys);
    if q.threshold > TotalWeight(q.configs) || q.threshold < 1 then (Failure(InvalidThreshold), start)
    else if start.completedWeight >= q.threshold then (Success(()), start)
    else
      var end := Run(q, start, events);
      (if end.completedWeight < q.threshold then Failure(NotCompleted) else Success(()), end)
  }

  /** A normal return means the cache holds keys from servers of at least the threshold's weight. */
  lemma NormalReturnMeansThreshold<G1, G2, GT, Scalar>(q: Request<G1, G2, GT, Scalar>, cachedKeys: KeyStore<G1>,
                                                      events: seq<Event<G1, G2>>)
    requires Distinct(ConfigIds(q.configs)) && ServerIds(q.servers) == ConfigIds(q.configs)
    requires CacheVerified(q.suite, q.servers, cachedKeys)
    requires EnabledRun(q, Initial(q, cachedKeys), events)
    requires FetchKeys(q, cachedKeys, events).0.Success?
    ensures var end := FetchKeys(q, cachedKeys, events).1;
            ThresholdCached(q, end.cachedKeys, end.completed) && CacheVerified(q.suite, q.servers, end.cachedKeys)
  {
    hide VerifyUserSecretKey, HoldsAll, Run, EnabledRun;
    var start := Initial(q, cachedKeys);
    SelectPartitions(q.configs, ServerIds(q.servers), cachedKeys, q.fullIds);
    if start.completedWeight >= q.threshold {
      DistinctParts(start.completed, start.pending);
    } else {
      InitialInv(q, cachedKeys);
      RunKeepsInv(q, start, events);
      var end := Run(q, start, events);
      DistinctParts(end.completed, end.pending);
    }
  }

  /** Once the requests were aborted for too many failures no further replies make the call succeed,
      and once the threshold is reached no further failures make it fail. */
  lemma {:induction false} AbortIsFinal<G1, G2, GT, Scalar>(q: Request<G1, G2, GT, Scalar>, st: State<G1>,
                                                            events: seq<Event<G1, G2>>)
    requires ValidRequest(q) && Inv(q, st) && EnabledRun(q, st, events) && st.abort != Running
    ensures Run(q, st, events).abort == st.abort
    ensures Run(q, st, events).completedWeight >= q.threshold <==> st.abort == ThresholdReached
    decreases |events|
  {
    RunKeepsInv(q, st, events);
    if events != [] {
      StepKeepsInv(q, st, events[0]);
      StepKeepsAbort(q, st, events[0]);
      AbortIsFinal(q, Step(q, st, events[0]), events[1..]);
    }
  }

  lemma StepKeepsAbort<G1, G2, GT, Scalar>(q: Request<G1, G2, GT, Scalar>, st: State<G1>, e: Event<G1, G2>)
    requires st.abort != Running
    ensures Step(q, st, e).abort == st.abort
  {
    hide CacheKeys, Weight, Without, HoldsAll;
  }

  /** When every request has settled, the call returns normally exactly when it was never aborted for
      too many failures. */
  lemma SettledOutcome<G1, G2, GT, Scalar>(q: Request<G1, G2, GT, Scalar>, cachedKeys: KeyStore<G1>,
                                           events: seq<Event<G1, G2>>)
    requires ValidRequest(q) && CacheVerified(q.suite, q.servers, cachedKeys)
    requires EnabledRun(q, Initial(q, cachedKeys), events)
    requires Initial(q, cachedKeys).completedWeight < q.threshold
    requires Run(q, Initial(q, cachedKeys), events).pending == []
    ensures var end := Run(q, Initial(q, cachedKeys), events);
            && end.abort != Running
            && (FetchKeys(q, cachedKeys, events).0.Success? <==> end.abort == ThresholdReached)
  {
    hide Run, EnabledRun, Initial;
    InitialInv(q, cachedKeys);
    RunKeepsInv(q, Initial(q, cachedKeys), events);
  }

  // ---------- The outcome does not depend on the order of the replies ----------

  /** Whether a server completes, from what the cache held for it at the start and its own reply. */
  predicate Completes<G1, G2, GT(==), Scalar>(q: Request<G1, G2, GT, Scalar>, cachedKeys: KeyStore<G1>,
                                              server: Server<G2>, reply: Reply<G1>)
  {
    && reply.Keys?
    && CacheKeys(q.suite, server, reply.keys, cachedKeys).1
    && HoldsAll(CacheKeys(q.suite, server, reply.keys, cachedKeys).0, q.fullIds, server.objectId)
  }

  ghost predicate OnlyReplies<G1, G2>(events: seq<Event<G1, G2>>) {
    forall i :: 0 <= i < |events| ==> events[i].Settled?
  }

  /** The summed weight of the servers whose replies complete them. */
  function CompletingWeight<G1, G2, GT(==), Scalar>(q: Request<G1, G2, GT, Scalar>, cachedKeys: KeyStore<G1>,
                                                    events: seq<Event<G1, G2>>): nat
    requires OnlyReplies(events)
  {
    if events == [] then 0
    else (if Completes(q, cachedKeys, events[0].server, events[0].reply)
        then Weight(q.configs, events[0].server.objectId) else 0)
         + CompletingWeight(q, cachedKeys, events[1..])
  }

  /** Two caches hold keys of a server for the same identities. */
  ghost predicate SameFor<G1>(a: KeyStore<G1>, b: KeyStore<G1>, id: ObjectId) {
    forall fullId: string :: (fullId, id) in a <==> (fullId, id) in b
  }

  lemma {:induction false} CacheKeysLocal<G1, G2, GT, Scalar>(s: Suite<G1, G2, GT, Scalar>, server: Server<G2>,
                                                              keys: seq<(string, Option<G1>)>,
                                                              a: KeyStore<G1>, b: KeyStore<G1>)
    requires SameFor(a, b, server.objectId)
    ensures CacheKeys(s, server, keys, a).1 == CacheKeys(s, server, keys, b).1
    ensures SameFor(CacheKeys(s, server, keys, a).0, CacheKeys(s, server, keys, b).0, server.objectId)
    ensures forall key: KeyCacheKey :: key.1 != server.objectId ==>
        (key in CacheKeys(s, server, keys, a).0 <==> key in a)
    decreases |keys|
  {
    hide VerifyUserSecretKey;
    if keys != [] && keys[0].1.Some? {
      var at := (keys[0].0, server.objectId);
      var key := keys[0].1.value;
      if VerifyUserSecretKey(s, key, keys[0].0, server.pk) {
        CacheKeysLocal(s, server, keys[1..], a[at := key], b[at := key]);
      } else {
        CacheKeysLocal(s, server, keys[1..], a, b);
      }
    }
  }

  lemma SameForHoldsAll<G1>(fullIds: seq<string>, a: KeyStore<G1>, b: KeyStore<G1>, id: ObjectId)
    requires SameFor(a, b, id)
    ensures HoldsAll(a, fullIds, id) <==> HoldsAll(b, fullIds, id)
  {
  }

  lemma SettleLocally<G1, G2, GT, Scalar>(q: Request<G1, G2, GT, Scalar>, st: State<G1>, start: KeyStore<G1>,
                                          server: Server<G2>, reply: Reply<G1>)
    requires Distinct(st.pending) && server.objectId in st.pending
    requires forall id :: id in st.pending ==> SameFor(st.cachedKeys, start, id)
    ensures var next := Settle(q, st, server, reply);
            && next.completedWeight == st.completedWeight
                + (if Completes(q, start, server, reply) then Weight(q.configs, server.objectId) else 0)
            && next.completed == st.completed + (if Completes(q, start, server, reply) then [server.objectId] else [])
            && Distinct(next.pending)
            && (forall id :: id in next.pending ==> SameFor(next.cachedKeys, start, id))
  {
    hide CacheKeys, Weight, WeightOf, Without, Distinct;
    WithoutRemoves(q.configs, st.pending, server.objectId);
    var id := server.objectId;
    if reply.Keys? {
      CacheKeysLocal(q.suite, server, reply.keys, st.cachedKeys, start);
      SameForHoldsAll(q.fullIds, CacheKeys(q.suite, server, reply.keys, st.cachedKeys).0,
          CacheKeys(q.suite, server, reply.keys, start).0, id);
    }
    hide HoldsAll;
  }

  /** The weight a call ends with is what the cache gave plus what the replies complete, in whatever
      order the replies arrived. */
  lemma {:induction false} CompletedWeightIsSum<G1, G2, GT, Scalar>(q: Request<G1, G2, GT, Scalar>, st: State<G1>,
                                                                   start: KeyStore<G1>,
                                                                   events: seq<Event<G1, G2>>)
    requires OnlyReplies(events)
    requires EnabledRun(q, st, events) && Distinct(st.pending)
    requires forall id :: id in st.pending ==> SameFor(st.cachedKeys, start, id)
    ensures Run(q, st, events).completedWeight == st.completedWeight + CompletingWeight(q, start, events)
    decreases |events|
  {
    hide Settle, Completes, SameFor, Distinct, Weight;
    if events != [] {
      assert Enabled(q, st, events[0]);
      SettleLocally(q, st, start, events[0].server, events[0].reply);
      CompletedWeightIsSum(q, Step(q, st, events[0]), start, events[1..]);
    }
  }

  lemma {:induction false} CompletingWeightWithout<G1, G2, GT, Scalar>(
      q: Request<G1, G2, GT, Scalar>, start: KeyStore<G1>, events: seq<Event<G1, G2>>, k: nat)
    requires OnlyReplies(events) && k < |events|
    ensures OnlyReplies(events[..k] + events[k + 1..])
    ensures CompletingWeight(q, start, events)
            == CompletingWeight(q, start, events[..k] + events[k + 1..]) + CompletingWeight(q, start, [events[k]])
    decreases k
  {
    hide Completes, Weight;
    var others := events[..k] + events[k + 1..];
    assert [events[k]][1..] == [];
    if k == 0 {
      assert others == events[1..];
    } else {
      CompletingWeightWithout(q, start, events[1..], k - 1);
      assert others[1..] == events[1..][..k - 1] + events[1..][k..];
      assert events[1..][k - 1] == events[k];
    }
  }

  /** A sum over the same replies in another order. */
  lemma {:induction false} CompletingWeightOfPermutation<G1, G2, GT, Scalar>(
      q: Request<G1, G2, GT, Scalar>, start: KeyStore<G1>, a: seq<Event<G1, G2>>, b: seq<Event<G1, G2>>)
    requires OnlyReplies(a) && OnlyReplies(b) && multiset(a) == multiset(b)
    ensures CompletingWeight(q, start, a) == CompletingWeight(q, start, b)
    decreases |a|
  {
    if a == [] {
      assert |multiset(b)| == 0;
    } else {
      assert a[0] in multiset(b);
      var k :| 0 <= k < |b| && b[k] == a[0];
      var others := b[..k] + b[k + 1..];
      CompletingWeightWithout(q, start, b, k);
      CompletingWeightWithout(q, start, a, 0);
      assert a[..0] + a[1..] == a[1..];
      RemovedFromBoth(a, b, k);
      CompletingWeightOfPermutation(q, start, a[1..], others);
    }
  }

  lemma RemovedFromBoth<T>(a: seq<T>, b: seq<T>, k: nat)
    requires a != [] && k < |b| && b[k] == a[0] && multiset(a) == multiset(b)
    ensures multiset(a[1..]) == multiset(b[..k] + b[k + 1..])
  {
    assert a == [a[0]] + a[1..];
    assert b == b[..k] + [b[k]] + b[k + 1..];
    assert multiset(a[1..]) == multiset(a) - multiset{a[0]};
    assert multiset(b[..k] + b[k + 1..]) == multiset(b) - multiset{b[k]};
  }

  /** Two interleavings of the same replies end with the same completed weight and the same outcome. */
  lemma OutcomeIgnoresOrder<G1, G2, GT, Scalar>(q: Request<G1, G2, GT, Scalar>, cachedKeys: KeyStore<G1>,
                                               events: seq<Event<G1, G2>>, others: seq<Event<G1, G2>>)
    requires Distinct(ServerIds(q.servers))
    requires OnlyReplies(events) && EnabledRun(q, Initial(q, cachedKeys), events)
    requires OnlyReplies(others) && EnabledRun(q, Initial(q, cachedKeys), others)
    requires multiset(events) == multiset(others)
    ensures FetchKeys(q, cachedKeys, events).0 == FetchKeys(q, cachedKeys, others).0
    ensures FetchKeys(q, cachedKeys, events).1.completedWeight == FetchKeys(q, cachedKeys, others).1.completedWeight
  {
    hide *;
    var start := Initial(q, cachedKeys);
    InitialIsReady(q, cachedKeys);
    CompletedWeightIsSum(q, start, cachedKeys, events);
    CompletedWeightIsSum(q, start, cachedKeys, others);
    CompletingWeightOfPermutation(q, cachedKeys, events, others);
    OutcomeOfWeight(q, cachedKeys, events, others);
  }

  lemma InitialIsReady<G1, G2, GT, Scalar>(q: Request<G1, G2, GT, Scalar>, cachedKeys: KeyStore<G1>)
    requires Distinct(ServerIds(q.servers))
    ensures var start := Initial(q, cachedKeys);
            && Distinct(start.pending) && start.cachedKeys == cachedKeys
            && forall id :: id in start.pending ==> SameFor(start.cachedKeys, cachedKeys, id)
  {
    SelectSelects(ServerIds(q.servers), cachedKeys, q.fullIds, false);
  }

  lemma OutcomeOfWeight<G1, G2, GT, Scalar>(q: Request<G1, G2, GT, Scalar>, cachedKeys: KeyStore<G1>,
                                            events: seq<Event<G1, G2>>, others: seq<Event<G1, G2>>)
    requires var start := Initial(q, cachedKeys);
             Run(q, start, events).completedWeight == Run(q, start, others).completedWeight
    ensures FetchKeys(q, cachedKeys, events).0 == FetchKeys(q, cachedKeys, others).0
    ensures FetchKeys(q, cachedKeys, events).1.completedWeight == FetchKeys(q, cachedKeys, others).1.completedWeight
  {
    hide Initial, Run;
  }

  // ---------- What a reply caches ----------

  /** A pair of a reply holds a key for the identity that passes the server's verification equation. */
  ghost predicate Verifies<G1, G2, GT, Scalar>(s: Suite<G1, G2, GT, Scalar>, server: Server<G2>,
                                               pair: (string, Option<G1>), fullId: string) {
    pair.0 == fullId && pair.1.Some? && VerifyUserSecretKey(s, pair.1.value, fullId, server.pk)
  }

  /** How many pairs come before the first key that is not a point. */
  ghost function Readable<G1>(keys: seq<(string, Option<G1>)>): (n: nat)
    ensures n <= |keys| && forall i :: 0 <= i < n ==> keys[i].1.Some?
    ensures n < |keys| ==> keys[n].1.None?
  {
    if keys == [] || keys[0].1.None? then 0 else 1 + Readable(keys[1..])
  }

  /** The server's key for one identity after a reply: the last one of the reply that verifies, or else
      what was cached before. The pairs behind a key that is not a point are not looked at. */
  ghost predicate CachesFor<G1, G2, GT, Scalar>(s: Suite<G1, G2, GT, Scalar>, server: Server<G2>,
                                                keys: seq<(string, Option<G1>)>, before: KeyStore<G1>,
                                                after: KeyStore<G1>, fullId: string)
  {
    var (n, key) := (Readable(keys), (fullId, server.objectId));
    && (key in after <==> key in before || exists i :: 0 <= i < n && Verifies(s, server, keys[i], fullId))
    && (forall i :: 0 <= i < n && Verifies(s, server, keys[i], fullId) ==>
          (forall j :: i < j < n ==> !Verifies(s, server, keys[j], fullId)) ==>
            key in after && after[key] == keys[i].1.value)
    && ((key in before && forall i :: 0 <= i < n ==> !Verifies(s, server, keys[i], fullId)) ==>
          (key in after && after[key] == before[key]))
  }

  /** What a reply does to the cache, for every identity; the keys of other servers stay. */
  ghost predicate Caches<G1, G2, GT, Scalar>(s: Suite<G1, G2, GT, Scalar>, server: Server<G2>,
                                             keys: seq<(string, Option<G1>)>, before: KeyStore<G1>,
                                             after: KeyStore<G1>, parsed: bool)
  {
    && (parsed <==> forall i :: 0 <= i < |keys| ==> keys[i].1.Some?)
    && (forall key: KeyCacheKey :: key.1 != server.objectId ==> (key in after <==> key in before))
    && (forall key: KeyCacheKey :: key.1 != server.objectId && key in before ==> after[key] == before[key])
    && (forall fullId: string :: CachesFor(s, server, keys, before, after, fullId))
  }

  lemma {:induction false} CachedByReply<G1, G2, GT, Scalar>(s: Suite<G1, G2, GT, Scalar>, server: Server<G2>,
                                                            keys: seq<(string, Option<G1>)>,
                                                            cachedKeys: KeyStore<G1>)
    ensures var (after, parsed) := CacheKeys(s, server, keys, cachedKeys);
            Caches(s, server, keys, cachedKeys, after, parsed)
    decreases |keys|
  {
    hide VerifyUserSecretKey, CachesFor;
    var (after, parsed) := CacheKeys(s, server, keys, cachedKeys);
    if keys == [] || keys[0].1.None? {
      NothingCached(s, server, keys, cachedKeys);
    } else {
      var cached := if Verifies(s, server, keys[0], keys[0].0)
          then cachedKeys[(keys[0].0, server.objectId) := keys[0].1.value] else cachedKeys;
      CachedByReply(s, server, keys[1..], cached);
      assert keys == [keys[0]] + keys[1..];
      forall fullId: string ensures CachesFor(s, server, keys, cachedKeys, after, fullId) {
        CachesFirst(s, server, keys, cachedKeys, cached, after, fullId);
      }
    }
  }

  lemma NothingCached<G1, G2, GT, Scalar>(s: Suite<G1, G2, GT, Scalar>, server: Server<G2>,
                                          keys: seq<(string, Option<G1>)>, cachedKeys: KeyStore<G1>)
    requires Readable(keys) == 0
    ensures forall fullId: string :: CachesFor(s, server, keys, cachedKeys, cachedKeys, fullId)
  {
    hide Verifies, Readable;
  }

  /** The first pair of a reply, and then the rest of it. */
  lemma CachesFirst<G1, G2, GT, Scalar>(s: Suite<G1, G2, GT, Scalar>, server: Server<G2>,
                                        keys: seq<(string, Option<G1>)>, before: KeyStore<G1>, cached: KeyStore<G1>,
                                        after: KeyStore<G1>, fullId: string)
    requires keys != [] && keys[0].1.Some?
    requires cached == if Verifies(s, server, keys[0], keys[0].0)
                       then before[(keys[0].0, server.objectId) := keys[0].1.value] else before
    requires CachesFor(s, server, keys[1..], cached, after, fullId)
    ensures CachesFor(s, server, keys, before, after, fullId)
  {
    hide VerifyUserSecretKey;
    var (n, key, rest) := (Readable(keys), (fullId, server.objectId), keys[1..]);
    assert n == 1 + Readable(rest);
    assert Verifies(s, server, keys[0], fullId) ==> keys[0].0 == fullId;
    hide Verifies, Readable;
    assert forall i :: 0 <= i < n - 1 ==> rest[i] == keys[i + 1];
    assert forall i :: 1 <= i < n ==> keys[i] == rest[i - 1];
    if i :| 0 <= i < n - 1 && Verifies(s, server, rest[i], fullId) {
      assert Verifies(s, server, keys[i + 1], fullId);
    }
    forall i | 0 <= i < n && Verifies(s, server, keys[i], fullId) &&
        (forall j :: i < j < n ==> !Verifies(s, server, keys[j], fullId))
      ensures key in after && after[key] == keys[i].1.value
    {
      assert forall j :: i - 1 < j < n - 1 && 0 <= j ==> !Verifies(s, server, rest[j], fullId);
      if i > 0 {
        assert Verifies(s, server, rest[i - 1], fullId);
      }
    }
  }

  // ---------- The same call as the source runs it, over variables that its closures share ----------

  lemma {:induction false} SelectAppend<G1>(ids: seq<ObjectId>, id: ObjectId, cachedKeys: KeyStore<G1>,
                                            fullIds: seq<string>, complete: bool)
    ensures Select(ids + [id], cachedKeys, fullIds, complete) ==
            Select(ids, cachedKeys, fullIds, complete)
                + (if HoldsAll(cachedKeys, fullIds, id) == complete then [id] else [])
  {
    hide HoldsAll;
    if ids == [] {
      assert ids + [id] == [id];
      assert Select([id][1..], cachedKeys, fullIds, complete) == [];
    } else {
      assert (ids + [id])[1..] == ids[1..] + [id];
      SelectAppend(ids[1..], id, cachedKeys, fullIds, complete);
    }
  }

  lemma WeightOfAppend(configs: seq<KeyServerConfig>, ids: seq<ObjectId>, id: ObjectId)
    ensures WeightOf(configs, ids + [id]) == WeightOf(configs, ids) + Weight(configs, id)
  {
    WeightOfConcat(configs, ids, [id]);
    assert WeightOf(configs, [id]) == Weight(configs, id);
  }

  lemma InitialIs<G1, G2, GT, Scalar>(q: Request<G1, G2, GT, Scalar>, cachedKeys: KeyStore<G1>)
    ensures var completed := Select(ServerIds(q.servers), cachedKeys, q.fullIds, true);
            var pending := Select(ServerIds(q.servers), cachedKeys, q.fullIds, false);
            Initial(q, cachedKeys)
            == State(cachedKeys, WeightOf(q.configs, completed), WeightOf(q.configs, pending), completed, pending, 0,
                     Running)
  {
  }

  lemma NothingSelected<G1>(configs: seq<KeyServerConfig>, ids: seq<ObjectId>, cachedKeys: KeyStore<G1>,
                            fullIds: seq<string>)
    requires ids == []
    ensures Select(ids, cachedKeys, fullIds, true) == [] && Select(ids, cachedKeys, fullIds, false) == []
    ensures WeightOf(configs, []) == 0
  {
  }

  class FetchCall<G1, G2, GT(==), Scalar> {
    const request: Request<G1, G2, GT, Scalar>
    var cachedKeys: KeyStore<G1>
    var completedWeight: int
    var remainingKeyServersWeight: int
    var completed: seq<ObjectId>
    var remainingKeyServers: seq<ObjectId>
    var errors: nat
    var abort: AbortState

    ghost function Contents(): State<G1>
      reads this
    {
      State(cachedKeys, completedWeight, remainingKeyServersWeight, completed, remainingKeyServers, errors, abort)
    }

    /** Sorts the servers into those whose keys are all cached and those to ask. */
    constructor (q: Request<G1, G2, GT, Scalar>, cached: KeyStore<G1>)
      ensures request == q && Contents() == Initial(q, cached)
    {
      request := q;
      cachedKeys := cached;
      completedWeight, remainingKeyServersWeight := 0, 0;
      completed, remainingKeyServers := [], [];
      errors, abort := 0, Running;
      new;
      var ids := ServerIds(q.servers);
      NothingSelected(q.configs, ids[..0], cached, q.fullIds);
      hide *;
      for i := 0 to |ids|
        invariant request == q && cachedKeys == cached && errors == 0 && abort == Running
        invariant completed == Select(ids[..i], cached, q.fullIds, true)
        invariant remainingKeyServers == Select(ids[..i], cached, q.fullIds, false)
        invariant completedWeight == WeightOf(q.configs, completed)
        invariant remainingKeyServersWeight == WeightOf(q.configs, remainingKeyServers)
      {
        var objectId := ids[i];
        assert ids[..i + 1] == ids[..i] + [objectId];
        SelectAppend(ids[..i], objectId, cached, q.fullIds, true);
        SelectAppend(ids[..i], objectId, cached, q.fullIds, false);
        if HoldsAll(cachedKeys, q.fullIds, objectId) {
          WeightOfAppend(q.configs, completed, objectId);
          completedWeight := completedWeight + Weight(q.configs, objectId);
          completed := completed + [objectId];
        } else {
          WeightOfAppend(q.configs, remainingKeyServers, objectId);
          remainingKeyServers := remainingKeyServers + [objectId];
          remainingKeyServersWeight := remainingKeyServersWeight + Weight(q.configs, objectId);
        }
      }
      assert ids[..|ids|] == ids;
      InitialIs(q, cached);
    }

    /** Caches the valid keys of a reply; false when a key is not a point, which throws. */
    method AddKeys(server: Server<G2>, keys: seq<(string, Option<G1>)>) returns (parsed: bool)
      modifies `cachedKeys
      ensures (cachedKeys, parsed) == CacheKeys(request.suite, server, keys, old(cachedKeys))
      ensures Caches(request.suite, server, keys, old(cachedKeys), cachedKeys, parsed)
    {
      CachedByReply(request.suite, server, keys, cachedKeys);
      hide Caches, CachesFor;
      for i := 0 to |keys|
        invariant CacheKeys(request.suite, server, keys, old(cachedKeys))
            == CacheKeys(request.suite, server, keys[i..], cachedKeys)
      {
        var (fullId, element) := keys[i];
        assert keys[i..][0] == keys[i] && keys[i..][1..] == keys[i + 1..];
        match element
        case None =>
          parsed := false;
          return;
        case Some(key) =>
          if VerifyUserSecretKey(request.suite, key, fullId, server.pk) {
            cachedKeys := cachedKeys[(fullId, server.objectId) := key];
          }
      }
      parsed := true;
    }

    method AbortWith(reason: AbortState)
      modifies `abort
      ensures abort == Abort(old(abort), reason)
    {
      if abort == Running {
        abort := reason;
      }
    }

    method RecordError()
      modifies `errors
      ensures errors == if abort == Running then old(errors) + 1 else old(errors)
    {
      if abort == Running {
        errors := errors + 1;
      }
    }

    /** What one request does, in one piece, once its reply or its failure has arrived. */
    method SettleRequest(server: Server<G2>, reply: Reply<G1>)
      modifies this
      ensures Contents() == Settle(request, old(Contents()), server, reply)
    {
      hide CacheKeys, HoldsAll, Weight, Without, VerifyUserSecretKey;
      match reply {
        case RequestFailed =>
          RecordError();
        case Keys(keys) =>
          var parsed := AddKeys(server, keys);
          if !parsed {
            RecordError();
          } else if HoldsAll(cachedKeys, request.fullIds, server.objectId) {
            completedWeight := completedWeight + Weight(request.configs, server.objectId);
            completed := completed + [server.objectId];
            if completedWeight >= request.threshold {
              AbortWith(ThresholdReached);
            }
          }
      }
      assert Contents() == Receive(request, old(Contents()), server, reply);
      remainingKeyServersWeight := remainingKeyServersWeight - Weight(request.configs, server.objectId);
      remainingKeyServers := Without(remainingKeyServers, server.objectId);
      if remainingKeyServersWeight < request.threshold - completedWeight {
        AbortWith(TooManyFailures);
      }
    }
  }
}
