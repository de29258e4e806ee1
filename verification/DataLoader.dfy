/** packages/utils/src/dataloader.ts as a step machine over the calls that its users make and the
    callbacks that its environment runs. */
module DataLoaders {
  import opened Results

  /** What rejects a promise: an error of the batch function, or a TypeError of the loader. */
  datatype LoadError<+E> = Raised(e: E) | WrongUse

  datatype Outcome<+V, +E> =
    | Pending
    | Fulfilled(v: V)
    | Rejected(error: LoadError<E>)
    | Follows(cached: nat)    // resolved with another promise

  /** What created a promise: load, at a place of a batch, or prime. */
  datatype Origin =
    | Enqueued(batch: nat, index: nat)
    | Hit(batch: nat, index: nat, cached: nat)
    | Primed

  datatype Promise<+K, +V, +E> = Promise(key: K, origin: Origin, outcome: Outcome<V, E>)

  /** Where a batch is: scheduled for dispatch, waiting for the batch function, or done. */
  datatype Phase<+V, +E> =
    | Scheduled
    | InFlight
    | Loaded(values: seq<Result<V, E>>)
    | Failed(error: LoadError<E>)
  {
    predicate Done() {
      Loaded? || Failed?
    }
  }

  datatype Batch<+K, +V, +E> = Batch(phase: Phase<V, E>, keys: seq<K>, callbacks: seq<nat>,
      cacheHits: seq<(nat, nat)>) {
    predicate HasDispatched() {
      !phase.Scheduled?
    }
  }

  /** maxBatchSize None is Infinity. */
  datatype Config<!K, !C> = Config(maxBatchSize: Option<nat>, cacheKey: K -> C)

  /** Promises are numbered in the order of their creation, as are batches; without caching there is
      no cache map. */
  datatype State<K, V, C, E> = State(
    promises: seq<Promise<K, V, E>>,
    batches: seq<Batch<K, V, E>>,
    batch: Option<nat>,
    cacheMap: Option<map<C, nat>>)

  /** What the batch function's promise comes to. */
  datatype Reply<+V, +E> = Values(values: seq<Result<V, E>>) | NotArray | RejectedWith(e: E)

  datatype Event<K, V, E> =
    | Load(argument: Option<K>)                // None stands for null and undefined
    | Clear(key: K)
    | ClearAll
    | Prime(key: K, value: Result<V, E>)
    | Dispatch(batch: nat, accepted: bool)     // whether the batch function returned a promise
    | Settle(batch: nat, reply: Reply<V, E>)

  function OutcomeOf<V, E>(r: Result<V, E>): Outcome<V, E> {
    match r
    case Success(v) => Fulfilled(v)
    case Failure(e) => Rejected(Raised(e))
  }

  // ---------- Steps ----------

  predicate HasRoom<K, V, C, E>(cfg: Config<K, C>, batch: Batch<K, V, E>) {
    !batch.HasDispatched() && (cfg.maxBatchSize.Some? ==> |batch.keys| < cfg.maxBatchSize.value)
  }

  /** The state with the current batch in place. */
  function WithCurrentBatch<K, V, C, E>(cfg: Config<K, C>, st: State<K, V, C, E>): (r: State<K, V, C, E>)
    ensures r.batch.Some? && r.batch.value < |r.batches|
  {
    if st.batch.Some? && st.batch.value < |st.batches| && HasRoom(cfg, st.batches[st.batch.value]) then st
    else st.(batches := st.batches + [Batch(Scheduled, [], [], [])], batch := Some(|st.batches|))
  }

  function LoadStep<K, V, C(==), E>(cfg: Config<K, C>, st: State<K, V, C, E>, key: K): State<K, V, C, E> {
    LoadInto(cfg, WithCurrentBatch(cfg, st), key)
  }

  /** Loading a key once the current batch is in place. */
  function LoadInto<K, V, C(==), E>(cfg: Config<K, C>, st: State<K, V, C, E>, key: K): State<K, V, C, E>
    requires st.batch.Some? && st.batch.value < |st.batches|
  {
    var b := st.batch.value;
    var batch := st.batches[b];
    var p := |st.promises|;
    if st.cacheMap.Some? && cfg.cacheKey(key) in st.cacheMap.value then
      var cached := st.cacheMap.value[cfg.cacheKey(key)];
      st.(promises := st.promises + [Promise(key, Hit(b, |batch.cacheHits|, cached), Pending)],
          batches := st.batches[b := batch.(cacheHits := batch.cacheHits + [(p, cached)])])
    else
      st.(promises := st.promises + [Promise(key, Enqueued(b, |batch.keys|), Pending)],
          batches := st.batches[b := batch.(keys := batch.keys + [key], callbacks := batch.callbacks + [p])],
          cacheMap := if st.cacheMap.None? then None else Some(st.cacheMap.value[cfg.cacheKey(key) := p]))
  }

  function Without<C, V>(cacheMap: Option<map<C, V>>, removed: set<C>): Option<map<C, V>> {
    if cacheMap.None? then None else Some(cacheMap.value - removed)
  }

  function PrimeStep<K, V, C(==), E>(cfg: Config<K, C>, st: State<K, V, C, E>, key: K, value: Result<V, E>)
    : State<K, V, C, E>
  {
    if st.cacheMap.None? || cfg.cacheKey(key) in st.cacheMap.value then st
    else
      st.(promises := st.promises + [Promise(key, Primed, OutcomeOf(value))],
          cacheMap := Some(st.cacheMap.value[cfg.cacheKey(key) := |st.promises|]))
  }

  /** Gives promises their outcomes one after the other; a number that is no promise's is ignored. */
  function SettleAll<K, V, E>(promises: seq<Promise<K, V, E>>, ids: seq<nat>, outcomes: seq<Outcome<V, E>>)
    : (r: seq<Promise<K, V, E>>)
    requires |ids| == |outcomes|
    ensures |r| == |promises|
  {
    if ids == [] then promises
    else
      var n := |ids| - 1;
      var rest := SettleAll(promises, ids[..n], outcomes[..n]);
      if ids[n] < |rest| then rest[ids[n] := rest[ids[n]].(outcome := outcomes[n])] else rest
  }

  function HitPromises(hits: seq<(nat, nat)>): (r: seq<nat>)
    ensures |r| == |hits| && forall i :: 0 <= i < |r| ==> r[i] == hits[i].0
  {
    seq(|hits|, i requires 0 <= i < |hits| => hits[i].0)
  }

  function HitOutcomes<V, E>(hits: seq<(nat, nat)>): (r: seq<Outcome<V, E>>)
    ensures |r| == |hits| && forall i :: 0 <= i < |r| ==> r[i] == Follows(hits[i].1)
  {
    seq(|hits|, i requires 0 <= i < |hits| => Follows(hits[i].1))
  }

  function ResolveCacheHits<K, V, E>(promises: seq<Promise<K, V, E>>, hits: seq<(nat, nat)>): (r: seq<Promise<K, V, E>>)
    ensures |r| == |promises|
  {
    SettleAll(promises, HitPromises(hits), HitOutcomes(hits))
  }

  /** What a batch that has come to its end makes of its n callbacks. */
  function CallbackOutcomes<V, E>(phase: Phase<V, E>, n: nat): (r: seq<Outcome<V, E>>)
    requires phase.Failed? || (phase.Loaded? && |phase.values| == n)
    ensures |r| == n
  {
    if phase.Failed? then seq(n, i => Rejected(phase.error))
    else seq(n, i requires 0 <= i < n => OutcomeOf(phase.values[i]))
  }

  function CacheKeys<K, C>(cfg: Config<K, C>, keys: seq<K>): set<C> {
    set i | 0 <= i < |keys| :: cfg.cacheKey(keys[i])
  }

  predicate Ends<V, E>(phase: Phase<V, E>, n: nat) {
    phase.Failed? || (phase.Loaded? && |phase.values| == n)
  }

  /** The end of a batch: its cache hits are resolved, its callbacks called and, if it failed, its keys
      removed from the cache. */
  function EndBatch<K, V, C, E>(cfg: Config<K, C>, st: State<K, V, C, E>, b: nat, phase: Phase<V, E>): State<K, V, C, E>
    requires b < |st.batches| && Ends(phase, |st.batches[b].callbacks|)
  {
    var batch := st.batches[b];
    st.(promises := SettleAll(ResolveCacheHits(st.promises, batch.cacheHits), batch.callbacks,
        CallbackOutcomes(phase, |batch.callbacks|)),
        batches := st.batches[b := batch.(phase := phase)],
        cacheMap := if phase.Failed? then Without(st.cacheMap, CacheKeys(cfg, batch.keys)) else st.cacheMap)
  }

  /** What a reply means for a batch of n keys. */
  function PhaseOf<V, E>(reply: Reply<V, E>, n: nat): (r: Phase<V, E>)
    ensures Ends(r, n)
  {
    match reply
    case Values(values) => if |values| == n then Loaded(values) else Failed(WrongUse)
    case NotArray => Failed(WrongUse)
    case RejectedWith(e) => Failed(Raised(e))
  }

  /** A scheduled callback runs once; the promise of the batch function settles once. */
  predicate Enabled<K, V, C, E>(st: State<K, V, C, E>, event: Event<K, V, E>) {
    match event
    case Dispatch(b, _) => b < |st.batches| && st.batches[b].phase.Scheduled?
    case Settle(b, _) => b < |st.batches| && st.batches[b].phase.InFlight?
    case _ => true
  }

  predicate Paired<K, V, C, E>(st: State<K, V, C, E>) {
    forall b :: 0 <= b < |st.batches| ==> |st.batches[b].keys| == |st.batches[b].callbacks|
  }

  function Step<K, V, C(==), E>(cfg: Config<K, C>, st: State<K, V, C, E>, event: Event<K, V, E>): State<K, V, C, E>
    requires Enabled(st, event) && Paired(st)
  {
    match event
    case Load(None) => st
    case Load(Some(key)) => LoadStep(cfg, st, key)
    case Clear(key) => st.(cacheMap := Without(st.cacheMap, {cfg.cacheKey(key)}))
    case ClearAll => st.(cacheMap := if st.cacheMap.None? then None else Some(map[]))
    case Prime(key, value) => PrimeStep(cfg, st, key, value)
    case Dispatch(b, accepted) =>
      if st.batches[b].keys == [] then EndBatch(cfg, st, b, Loaded([]))
      else if !accepted then EndBatch(cfg, st, b, Failed(WrongUse))
      else st.(batches := st.batches[b := st.batches[b].(phase := InFlight)])
    case Settle(b, reply) => EndBatch(cfg, st, b, PhaseOf(reply, |st.batches[b].keys|))
  }

  function Initial<K, V, C, E>(caching: bool): State<K, V, C, E> {
    State([], [], None, if caching then Some(map[]) else None)
  }

  // ---------- The invariant ----------

  ghost predicate BatchOk<K, V, C, E>(cfg: Config<K, C>, st: State<K, V, C, E>, b: nat)
    requires b < |st.batches|
  {
    var batch := st.batches[b];
    && |batch.keys| == |batch.callbacks|
    && (cfg.maxBatchSize.Some? ==> |batch.keys| <= cfg.maxBatchSize.value)
    && (batch.phase.Loaded? ==> |batch.phase.values| == |batch.keys|)
    && (forall i :: 0 <= i < |batch.callbacks| ==>
          batch.callbacks[i] < |st.promises| && st.promises[batch.callbacks[i]].origin == Enqueued(b, i))
    && (forall i :: 0 <= i < |batch.cacheHits| ==>
          batch.cacheHits[i].0 < |st.promises| && st.promises[batch.cacheHits[i].0].origin
              == Hit(b, i, batch.cacheHits[i].1))
  }

  /** A promise is where its origin says, and its outcome is what the phase of its batch says. */
  ghost predicate PromiseOk<K, V, C, E>(cfg: Config<K, C>, st: State<K, V, C, E>, p: nat)
    requires p < |st.promises|
  {
    var promise := st.promises[p];
    match promise.origin
    case Primed => promise.outcome.Fulfilled? || promise.outcome.Rejected?
    case Enqueued(b, i) =>
      && b < |st.batches| && i < |st.batches[b].callbacks| && i < |st.batches[b].keys|
      && st.batches[b].callbacks[i] == p && st.batches[b].keys[i] == promise.key
      && (match st.batches[b].phase
          case Loaded(values) => i < |values| && promise.outcome == OutcomeOf(values[i])
          case Failed(error) => promise.outcome == Rejected(error)
          case _ => promise.outcome == Pending)
    case Hit(b, i, q) =>
      && b < |st.batches| && i < |st.batches[b].cacheHits| && st.batches[b].cacheHits[i] == (p, q)
      && Cacheable(cfg, st, q, cfg.cacheKey(promise.key))
      && promise.outcome == if st.batches[b].phase.Done() then Follows(q) else Pending
  }

  /** A promise that may be cached under a key: it was enqueued or primed, never a cache hit. */
  ghost predicate Cacheable<K, V, C, E>(cfg: Config<K, C>, st: State<K, V, C, E>, p: nat, key: C) {
    p < |st.promises| && !st.promises[p].origin.Hit? && cfg.cacheKey(st.promises[p].key) == key
  }

  ghost predicate CacheOk<K, V, C, E>(cfg: Config<K, C>, st: State<K, V, C, E>) {
    st.cacheMap.Some? ==> forall c :: c in st.cacheMap.value ==> Cacheable(cfg, st, st.cacheMap.value[c], c)
  }

  ghost predicate Inv<K, V, C, E>(cfg: Config<K, C>, st: State<K, V, C, E>) {
    && (cfg.maxBatchSize.Some? ==> cfg.maxBatchSize.value >= 1)
    && (forall b :: 0 <= b < |st.batches| ==> BatchOk(cfg, st, b))
    && (forall p :: 0 <= p < |st.promises| ==> PromiseOk(cfg, st, p))
    && CacheOk(cfg, st)
  }

  lemma InvPaired<K, V, C, E>(cfg: Config<K, C>, st: State<K, V, C, E>)
    requires Inv(cfg, st)
    ensures Paired(st)
  {
    forall b | 0 <= b < |st.batches|
      ensures |st.batches[b].keys| == |st.batches[b].callbacks|
    {
      assert BatchOk(cfg, st, b);
    }
  }

  // ---------- Every step keeps the invariant ----------

  lemma CurrentBatchHasRoom<K, V, C, E>(cfg: Config<K, C>, st: State<K, V, C, E>)
    requires Inv(cfg, st)
    ensures var r := WithCurrentBatch(cfg, st);
            Inv(cfg, r) && HasRoom(cfg, r.batches[r.batch.value]) && r.promises == st.promises
                && r.cacheMap == st.cacheMap
  {
    var r := WithCurrentBatch(cfg, st);
    forall b | 0 <= b < |r.batches|
      ensures BatchOk(cfg, r, b)
    {
      if b < |st.batches| {
        assert BatchOk(cfg, st, b);
      }
    }
    forall p | 0 <= p < |r.promises|
      ensures PromiseOk(cfg, r, p)
    {
      assert PromiseOk(cfg, st, p);
    }
  }

  /** A promise stays in order when promises are added and batches are only extended. */
  lemma PromiseStays<K, V, C, E>(cfg: Config<K, C>, st: State<K, V, C, E>, r: State<K, V, C, E>, p: nat)
    requires p < |st.promises| && PromiseOk(cfg, st, p)
    requires st.promises <= r.promises && |st.batches| <= |r.batches|
    requires forall b :: 0 <= b < |st.batches| ==>
               && r.batches[b].phase == st.batches[b].phase && st.batches[b].keys <= r.batches[b].keys
               && st.batches[b].callbacks <= r.batches[b].callbacks && st.batches[b].cacheHits <= r.batches[b].cacheHits
    ensures PromiseOk(cfg, r, p)
  {
    assert r.promises[p] == st.promises[p];
    match st.promises[p].origin {
      case Enqueued(b, i) => assert r.batches[b].keys[i] == st.batches[b].keys[i];
      case Hit(b, i, q) => assert r.promises[q] == st.promises[q];
      case Primed =>
    }
  }

  lemma LoadKeepsInv<K, V, C, E>(cfg: Config<K, C>, before: State<K, V, C, E>, key: K)
    requires Inv(cfg, before)
    ensures Inv(cfg, LoadStep(cfg, before, key))
  {
    CurrentBatchHasRoom(cfg, before);
    var st := WithCurrentBatch(cfg, before);
    var r := LoadInto(cfg, st, key);
    hide WithCurrentBatch, HasRoom;
    LoadKeepsBatches(cfg, st, key);
    LoadKeepsPromises(cfg, st, key);
    LoadKeepsCache(cfg, st, key);
  }

  lemma LoadKeepsBatches<K, V, C, E>(cfg: Config<K, C>, st: State<K, V, C, E>, key: K)
    requires Inv(cfg, st) && st.batch.Some? && st.batch.value < |st.batches| && HasRoom(cfg, st.batches[st.batch.value])
    ensures var r := LoadInto(cfg, st, key); forall b :: 0 <= b < |r.batches| ==> BatchOk(cfg, r, b)
  {
    hide PromiseOk, CacheOk;
    var r := LoadInto(cfg, st, key);
    forall b | 0 <= b < |r.batches|
      ensures BatchOk(cfg, r, b)
    {
      assert BatchOk(cfg, st, b);
    }
  }

  lemma LoadKeepsPromises<K, V, C, E>(cfg: Config<K, C>, st: State<K, V, C, E>, key: K)
    requires Inv(cfg, st) && st.batch.Some? && st.batch.value < |st.batches| && HasRoom(cfg, st.batches[st.batch.value])
    ensures var r := LoadInto(cfg, st, key); forall p :: 0 <= p < |r.promises| ==> PromiseOk(cfg, r, p)
  {
    var r := LoadInto(cfg, st, key);
    assert BatchOk(cfg, st, st.batch.value);
    assert PromiseOk(cfg, r, |st.promises|);
    hide PromiseOk, BatchOk;
    forall p | 0 <= p < |st.promises|
      ensures PromiseOk(cfg, r, p)
    {
      PromiseStays(cfg, st, r, p);
    }
  }

  lemma LoadKeepsCache<K, V, C, E>(cfg: Config<K, C>, st: State<K, V, C, E>, key: K)
    requires CacheOk(cfg, st) && st.batch.Some? && st.batch.value < |st.batches|
    ensures CacheOk(cfg, LoadInto(cfg, st, key))
  {
  }

  lemma PrimeKeepsInv<K, V, C, E>(cfg: Config<K, C>, st: State<K, V, C, E>, key: K, value: Result<V, E>)
    requires Inv(cfg, st)
    ensures Inv(cfg, PrimeStep(cfg, st, key, value))
  {
    var r := PrimeStep(cfg, st, key, value);
    forall b | 0 <= b < |r.batches|
      ensures BatchOk(cfg, r, b)
    {
      assert BatchOk(cfg, st, b);
    }
    forall q | 0 <= q < |r.promises|
      ensures PromiseOk(cfg, r, q)
    {
      if q < |st.promises| {
        hide PromiseOk;
        PromiseStays(cfg, st, r, q);
      }
    }
  }

  lemma SettleLast<K, V, E>(promises: seq<Promise<K, V, E>>, ids: seq<nat>, outcomes: seq<Outcome<V, E>>)
    requires |ids| == |outcomes| > 0 && ids[|ids| - 1] < |promises|
    ensures var n := |ids| - 1;
            var rest := SettleAll(promises, ids[..n], outcomes[..n]);
            SettleAll(promises, ids, outcomes) == rest[ids[n] := rest[ids[n]].(outcome := outcomes[n])]
  {
  }

  /** Which promises a batch settles, and what it makes of them. */
  lemma {:induction false} SettleAllAt<K, V, E>(promises: seq<Promise<K, V, E>>, ids: seq<nat>,
                                                outcomes: seq<Outcome<V, E>>)
    requires |ids| == |outcomes| && forall i :: 0 <= i < |ids| ==> ids[i] < |promises|
    ensures var r := SettleAll(promises, ids, outcomes);
            && (forall p :: 0 <= p < |r| ==> r[p].key == promises[p].key && r[p].origin == promises[p].origin)
            && (forall p :: 0 <= p < |r| && p !in ids ==> r[p] == promises[p])
            && (forall i :: 0 <= i < |ids| && (forall j :: i < j < |ids| ==> ids[j] != ids[i]) ==>
                r[ids[i]].outcome == outcomes[i])
  {
    if ids != [] {
      var n := |ids| - 1;
      SettleAllAt(promises, ids[..n], outcomes[..n]);
      SettleLast(promises, ids, outcomes);
      hide SettleAll;
      var r := SettleAll(promises, ids, outcomes);
      forall i | 0 <= i < |ids| && (forall j :: i < j < |ids| ==> ids[j] != ids[i])
        ensures r[ids[i]].outcome == outcomes[i]
      {
        if i < n {
          assert ids[..n][i] == ids[i] && ids[n] != ids[i];
          assert forall j :: i < j < n ==> ids[..n][j] == ids[j];
        }
      }
      forall p | 0 <= p < |r| && p !in ids
        ensures r[p] == promises[p]
      {
        assert p != ids[n] && p !in ids[..n];
      }
    }
  }

  /** What the end of a batch does to a promise: it settles the promises of the batch and no other. */
  ghost predicate Settled<K, V, C, E>(st: State<K, V, C, E>, b: nat, phase: Phase<V, E>,
                                      promises: seq<Promise<K, V, E>>, p: nat)
    requires p < |st.promises| == |promises| && b < |st.batches| && Ends(phase, |st.batches[b].callbacks|)
  {
    var batch, was := st.batches[b], st.promises[p];
    match was.origin
    case Enqueued(b', i) =>
      if b' == b && i < |batch.callbacks| then promises[p]
          == was.(outcome := CallbackOutcomes(phase, |batch.callbacks|)[i]) else promises[p] == was
    case Hit(b', _, q) => promises[p] == if b' == b then was.(outcome := Follows(q)) else was
    case Primed => promises[p] == was
  }

  lemma EndBatchSettles<K, V, C, E>(cfg: Config<K, C>, st: State<K, V, C, E>, b: nat, phase: Phase<V, E>)
    requires Inv(cfg, st) && b < |st.batches| && Ends(phase, |st.batches[b].callbacks|)
    ensures var r := EndBatch(cfg, st, b, phase);
            forall p :: 0 <= p < |r.promises| ==> Settled(st, b, phase, r.promises, p)
  {
    hide CacheOk, SettleAll, CacheKeys;
    var batch := st.batches[b];
    assert BatchOk(cfg, st, b);
    var ids := HitPromises(batch.cacheHits);
    var middle := ResolveCacheHits(st.promises, batch.cacheHits);
    SettleAllAt(st.promises, ids, HitOutcomes(batch.cacheHits));
    SettleAllAt(middle, batch.callbacks, CallbackOutcomes(phase, |batch.callbacks|));
    var r := EndBatch(cfg, st, b, phase).promises;
    forall p | 0 <= p < |r|
      ensures Settled(st, b, phase, r, p)
    {
      assert PromiseOk(cfg, st, p);
      var was := st.promises[p];
      match was.origin {
        case Enqueued(b', i) =>
          assert p !in ids;
          if b' == b {
            assert batch.callbacks[i] == p;
          } else {
            assert p !in batch.callbacks;
          }
        case Hit(b', i, q) =>
          assert p !in batch.callbacks;
          if b' == b {
            assert ids[i] == p;
          } else {
            assert p !in ids;
          }
        case Primed =>
          assert p !in ids && p !in batch.callbacks;
      }
    }
  }

  lemma EndBatchKeepsInv<K, V, C, E>(cfg: Config<K, C>, st: State<K, V, C, E>, b: nat, phase: Phase<V, E>)
    requires Inv(cfg, st) && b < |st.batches| && !st.batches[b].phase.Done() && Ends(phase, |st.batches[b].callbacks|)
    ensures Inv(cfg, EndBatch(cfg, st, b, phase))
  {
    EndBatchSettles(cfg, st, b, phase);
    var r := EndBatch(cfg, st, b, phase);
    assert BatchOk(cfg, st, b);
    hide SettleAll, ResolveCacheHits, CacheKeys;
    forall b' | 0 <= b' < |r.batches|
      ensures BatchOk(cfg, r, b')
    {
      assert BatchOk(cfg, st, b');
      hide CallbackOutcomes;
      SettledOrigins(st, b, phase, r.promises);
    }
    forall p | 0 <= p < |r.promises|
      ensures PromiseOk(cfg, r, p)
    {
      assert PromiseOk(cfg, st, p) && Settled(st, b, phase, r.promises, p);
      SettledOrigins(st, b, phase, r.promises);
    }
    SettledOrigins(st, b, phase, r.promises);
  }

  lemma SettledOrigins<K, V, C, E>(st: State<K, V, C, E>, b: nat, phase: Phase<V, E>, promises: seq<Promise<K, V, E>>)
    requires |st.promises| == |promises| && b < |st.batches| && Ends(phase, |st.batches[b].callbacks|)
    requires forall p :: 0 <= p < |promises| ==> Settled(st, b, phase, promises, p)
    ensures forall p :: 0 <= p < |promises| ==>
              promises[p].origin == st.promises[p].origin && promises[p].key == st.promises[p].key
  {
    forall p | 0 <= p < |promises|
      ensures promises[p].origin == st.promises[p].origin && promises[p].key == st.promises[p].key
    {
      assert Settled(st, b, phase, promises, p);
    }
  }

  lemma StepKeepsInv<K, V, C, E>(cfg: Config<K, C>, st: State<K, V, C, E>, event: Event<K, V, E>)
    requires Inv(cfg, st) && Enabled(st, event)
    ensures Paired(st) && Inv(cfg, Step(cfg, st, event))
  {
    InvPaired(cfg, st);
    hide LoadStep, PrimeStep, EndBatch, PhaseOf;
    match event {
      case Load(None) =>
      case Load(Some(key)) => LoadKeepsInv(cfg, st, key);
      case Prime(key, value) => PrimeKeepsInv(cfg, st, key, value);
      case Clear(_) => SmallerCacheKeepsInv(cfg, st, Step(cfg, st, event));
      case ClearAll => SmallerCacheKeepsInv(cfg, st, Step(cfg, st, event));
      case Dispatch(b, accepted) =>
        if st.batches[b].keys == [] {
          EndBatchKeepsInv(cfg, st, b, Loaded([]));
        } else if !accepted {
          EndBatchKeepsInv(cfg, st, b, Failed(WrongUse));
        } else {
          InFlightKeepsInv(cfg, st, b);
        }
      case Settle(b, reply) => EndBatchKeepsInv(cfg, st, b, PhaseOf(reply, |st.batches[b].keys|));
    }
  }

  lemma SmallerCacheKeepsInv<K, V, C, E>(cfg: Config<K, C>, st: State<K, V, C, E>, r: State<K, V, C, E>)
    requires Inv(cfg, st) && r == st.(cacheMap := r.cacheMap)
    requires r.cacheMap.Some? ==>
               st.cacheMap.Some? && forall c :: c in r.cacheMap.value ==>
                         c in st.cacheMap.value && r.cacheMap.value[c] == st.cacheMap.value[c]
    ensures Inv(cfg, r)
  {
    forall b | 0 <= b < |r.batches|
      ensures BatchOk(cfg, r, b)
    {
      assert BatchOk(cfg, st, b);
    }
    forall p | 0 <= p < |r.promises|
      ensures PromiseOk(cfg, r, p)
    {
      assert PromiseOk(cfg, st, p);
    }
  }

  lemma InFlightKeepsInv<K, V, C, E>(cfg: Config<K, C>, st: State<K, V, C, E>, b: nat)
    requires Inv(cfg, st) && b < |st.batches| && st.batches[b].phase.Scheduled?
    ensures Inv(cfg, st.(batches := st.batches[b := st.batches[b].(phase := InFlight)]))
  {
    var r := st.(batches := st.batches[b := st.batches[b].(phase := InFlight)]);
    forall b' | 0 <= b' < |r.batches|
      ensures BatchOk(cfg, r, b')
    {
      assert BatchOk(cfg, st, b');
    }
    forall p | 0 <= p < |r.promises|
      ensures PromiseOk(cfg, r, p)
    {
      assert PromiseOk(cfg, st, p);
    }
  }

  // ---------- Runs ----------

  /** A run; what the environment cannot do does not happen. */
  ghost function Run<K, V, C, E>(cfg: Config<K, C>, st: State<K, V, C, E>, events: seq<Event<K, V, E>>)
    : State<K, V, C, E>
    requires Inv(cfg, st)
    decreases |events|
  {
    if events == [] then st
    else if !Enabled(st, events[0]) then Run(cfg, st, events[1..])
    else
      StepKeepsInv(cfg, st, events[0]);
      Run(cfg, Step(cfg, st, events[0]), events[1..])
  }

  lemma InitialInv<K, V, C, E>(cfg: Config<K, C>, caching: bool)
    requires cfg.maxBatchSize.Some? ==> cfg.maxBatchSize.value >= 1
    ensures Inv(cfg, Initial<K, V, C, E>(caching))
  {
  }

  lemma {:induction false} RunKeepsInv<K, V, C, E>(cfg: Config<K, C>, st: State<K, V, C, E>,
                                                   events: seq<Event<K, V, E>>)
    requires Inv(cfg, st)
    ensures Inv(cfg, Run(cfg, st, events))
    decreases |events|
  {
    hide Inv, Enabled, Step;
    if events != [] {
      if !Enabled(st, events[0]) {
        RunKeepsInv(cfg, st, events[1..]);
      } else {
        StepKeepsInv(cfg, st, events[0]);
        RunKeepsInv(cfg, Step(cfg, st, events[0]), events[1..]);
      }
    }
  }

  /** What a step leaves alone: every promise keeps its key and its origin and, once it has an outcome,
      its outcome, so it settles at most once; a dispatched batch gets no more keys, callbacks or
      cache hits; a batch that is done stays as it is. */
  ghost predicate Later<K, V, C, E>(st: State<K, V, C, E>, r: State<K, V, C, E>) {
    && |st.promises| <= |r.promises|
    && |st.batches| <= |r.batches|
    && (forall p :: 0 <= p < |st.promises| ==>
          && r.promises[p].key == st.promises[p].key && r.promises[p].origin == st.promises[p].origin
          && (!st.promises[p].outcome.Pending? ==> r.promises[p].outcome == st.promises[p].outcome))
    && (forall b :: 0 <= b < |st.batches| ==>
          && (st.batches[b].HasDispatched() ==>
                    r.batches[b].HasDispatched() && r.batches[b] == st.batches[b].(phase := r.batches[b].phase))
          && (st.batches[b].phase.Done() ==> r.batches[b] == st.batches[b]))
  }

  lemma StepIsLater<K, V, C, E>(cfg: Config<K, C>, st: State<K, V, C, E>, event: Event<K, V, E>)
    requires Inv(cfg, st) && Enabled(st, event) && Paired(st)
    ensures Later(st, Step(cfg, st, event))
  {
    match event {
      case Load(None) =>
      case Load(Some(key)) => CurrentBatchHasRoom(cfg, st);
      case Prime(key, value) =>
      case Clear(_) =>
      case ClearAll =>
      case Dispatch(b, accepted) =>
        if st.batches[b].keys == [] {
          EndBatchIsLater(cfg, st, b, Loaded([]));
        } else if !accepted {
          EndBatchIsLater(cfg, st, b, Failed(WrongUse));
        }
      case Settle(b, reply) => EndBatchIsLater(cfg, st, b, PhaseOf(reply, |st.batches[b].keys|));
    }
  }

  lemma EndBatchIsLater<K, V, C, E>(cfg: Config<K, C>, st: State<K, V, C, E>, b: nat, phase: Phase<V, E>)
    requires Inv(cfg, st) && b < |st.batches| && !st.batches[b].phase.Done() && Ends(phase, |st.batches[b].callbacks|)
    ensures Later(st, EndBatch(cfg, st, b, phase))
  {
    EndBatchSettles(cfg, st, b, phase);
    var r := EndBatch(cfg, st, b, phase);
    hide SettleAll, ResolveCacheHits, CacheKeys, BatchOk, CacheOk, CallbackOutcomes;
    forall p | 0 <= p < |st.promises|
      ensures && r.promises[p].key == st.promises[p].key && r.promises[p].origin == st.promises[p].origin
              && (!st.promises[p].outcome.Pending? ==> r.promises[p].outcome == st.promises[p].outcome)
    {
      assert PromiseOk(cfg, st, p) && Settled(st, b, phase, r.promises, p);
    }
  }

  /** Over a whole run every promise settles at most once, and no batch changes its contents after
      its dispatch. */
  lemma {:induction false} RunIsLater<K, V, C, E>(cfg: Config<K, C>, st: State<K, V, C, E>, events: seq<Event<K, V, E>>)
    requires Inv(cfg, st)
    ensures Later(st, Run(cfg, st, events))
    decreases |events|
  {
    hide Inv, Enabled, Step, Later;
    if events == [] {
      LaterLaws(st, st, st);
    } else if !Enabled(st, events[0]) {
      RunIsLater(cfg, st, events[1..]);
    } else {
      StepKeepsInv(cfg, st, events[0]);
      StepIsLater(cfg, st, events[0]);
      RunIsLater(cfg, Step(cfg, st, events[0]), events[1..]);
      LaterLaws(st, Step(cfg, st, events[0]), Run(cfg, st, events));
    }
  }

  lemma LaterLaws<K, V, C, E>(a: State<K, V, C, E>, b: State<K, V, C, E>, c: State<K, V, C, E>)
    ensures Later(a, a)
    ensures Later(a, b) && Later(b, c) ==> Later(a, c)
  {
  }

  // ---------- The loader computes what the per-key function computes ----------

  /** The outcome of a promise, following it to a cached one. */
  function FinalOutcome<K, V, C, E>(st: State<K, V, C, E>, p: nat): Outcome<V, E>
    requires p < |st.promises|
  {
    var outcome := st.promises[p].outcome;
    if outcome.Follows? && outcome.cached < |st.promises| then st.promises[outcome.cached].outcome else outcome
  }

  ghost predicate RespectsCacheKey<K(!new), V, C, E>(cfg: Config<K, C>, f: K -> Result<V, E>) {
    forall k, l :: cfg.cacheKey(k) == cfg.cacheKey(l) ==> f(k) == f(l)
  }

  /** An event agrees with the function if it primes a key with the function's value, and if an array
      of the right length that the batch function returns holds the function's values. */
  ghost predicate AgreesEvent<K, V, C, E>(f: K -> Result<V, E>, st: State<K, V, C, E>, event: Event<K, V, E>) {
    match event
    case Prime(key, value) => value == f(key)
    case Settle(b, Values(values)) =>
      b < |st.batches| && |values| == |st.batches[b].keys| ==> forall i :: 0 <= i < |values| ==>
          values[i] == f(st.batches[b].keys[i])
    case _ => true
  }

  ghost predicate AgreesRun<K, V, C, E>(cfg: Config<K, C>, f: K -> Result<V, E>, st: State<K, V, C, E>,
                                        events: seq<Event<K, V, E>>)
    requires Inv(cfg, st)
    decreases |events|
  {
    events != [] ==>
      if !Enabled(st, events[0]) then AgreesRun(cfg, f, st, events[1..])
      else
        && AgreesEvent(f, st, events[0])
        && (StepKeepsInv(cfg, st, events[0]); AgreesRun(cfg, f, Step(cfg, st, events[0]), events[1..]))
  }

  ghost predicate Agrees<K, V, C, E>(f: K -> Result<V, E>, st: State<K, V, C, E>) {
    && (forall b :: 0 <= b < |st.batches| ==> BatchAgrees(f, st.batches[b]))
    && (forall p :: 0 <= p < |st.promises| && st.promises[p].origin.Primed? ==>
        st.promises[p].outcome == OutcomeOf(f(st.promises[p].key)))
  }

  ghost predicate BatchAgrees<K, V, E>(f: K -> Result<V, E>, batch: Batch<K, V, E>) {
    batch.phase.Loaded? && |batch.phase.values| == |batch.keys| ==> forall i :: 0 <= i < |batch.keys| ==>
        batch.phase.values[i] == f(batch.keys[i])
  }

  lemma StepAgrees<K, V, C, E>(cfg: Config<K, C>, f: K -> Result<V, E>, st: State<K, V, C, E>, event: Event<K, V, E>)
    requires Inv(cfg, st) && Enabled(st, event) && Paired(st) && Agrees(f, st) && AgreesEvent(f, st, event)
    ensures Agrees(f, Step(cfg, st, event))
  {
    StepIsLater(cfg, st, event);
    var r := Step(cfg, st, event);
    hide SettleAll, ResolveCacheHits, CacheKeys, BatchOk, CacheOk, CallbackOutcomes, PromiseOk, Inv;
    forall b | 0 <= b < |r.batches|
      ensures BatchAgrees(f, r.batches[b])
    {
      if b < |st.batches| {
        assert BatchAgrees(f, st.batches[b]);
      }
    }
  }

  /** The batch that a promise gets its value from; None for a primed one. */
  function SourceBatch<K, V, C, E>(st: State<K, V, C, E>, p: nat): Option<nat>
    requires p < |st.promises|
  {
    match st.promises[p].origin
    case Primed => None
    case Enqueued(b, _) => Some(b)
    case Hit(_, _, q) =>
      if q < |st.promises| && st.promises[q].origin.Enqueued? then Some(st.promises[q].origin.batch) else None
  }

  /** What a promise comes to: pending, the function's value for its key, or the error of the batch it
      gets its value from. */
  ghost predicate Refines<K, V, C, E>(f: K -> Result<V, E>, st: State<K, V, C, E>, p: nat)
    requires p < |st.promises|
  {
    var source := SourceBatch(st, p);
    var final := FinalOutcome(st, p);
    || final.Pending?
    || (source.Some? && source.value < |st.batches| && st.batches[source.value].phase.Failed?
        && final == Rejected(st.batches[source.value].phase.error))
    || ((source.Some? && source.value < |st.batches| ==> st.batches[source.value].phase.Loaded?)
        && final == OutcomeOf(f(st.promises[p].key)))
  }

  lemma AgreeingStateRefines<K(!new), V, C, E>(cfg: Config<K, C>, f: K -> Result<V, E>, st: State<K, V, C, E>, p: nat)
    requires Inv(cfg, st) && Agrees(f, st) && RespectsCacheKey(cfg, f) && p < |st.promises|
    ensures Refines(f, st, p)
  {
    hide CacheOk;
    assert PromiseOk(cfg, st, p);
    match st.promises[p].origin {
      case Primed =>
      case Enqueued(b, i) => assert BatchOk(cfg, st, b) && BatchAgrees(f, st.batches[b]);
      case Hit(b, i, q) =>
        assert PromiseOk(cfg, st, q);
        if st.promises[q].origin.Enqueued? {
          assert BatchOk(cfg, st, st.promises[q].origin.batch)
              && BatchAgrees(f, st.batches[st.promises[q].origin.batch]);
        }
    }
  }

  /** The loader refines the per-key function: in every run whose batch function and primes agree with
      it, every promise is pending, or has the function's value, or the error of its batch. */
  lemma {:induction false} RunRefines<K(!new), V, C, E>(cfg: Config<K, C>, f: K -> Result<V, E>,
                                                       st: State<K, V, C, E>, events: seq<Event<K, V, E>>)
    requires Inv(cfg, st) && Agrees(f, st) && RespectsCacheKey(cfg, f) && AgreesRun(cfg, f, st, events)
    ensures var r := Run(cfg, st, events); forall p :: 0 <= p < |r.promises| ==> Refines(f, r, p)
    decreases |events|
  {
    hide Inv, Enabled, Step, Agrees, AgreesEvent, Refines, RespectsCacheKey;
    if events == [] {
      forall p | 0 <= p < |st.promises|
        ensures Refines(f, st, p)
      {
        AgreeingStateRefines(cfg, f, st, p);
      }
    } else if !Enabled(st, events[0]) {
      RunRefines(cfg, f, st, events[1..]);
      assert Run(cfg, st, events) == Run(cfg, st, events[1..]);
    } else {
      StepKeepsInv(cfg, st, events[0]);
      StepAgrees(cfg, f, st, events[0]);
      RunRefines(cfg, f, Step(cfg, st, events[0]), events[1..]);
      assert Run(cfg, st, events) == Run(cfg, Step(cfg, st, events[0]), events[1..]);
    }
  }

  /** No promise hangs: once every batch is done, every promise has a value or an error. A cache hit
      never follows another cache hit. */
  lemma AllSettled<K, V, C, E>(cfg: Config<K, C>, st: State<K, V, C, E>, p: nat)
    requires Inv(cfg, st) && p < |st.promises| && forall b :: 0 <= b < |st.batches| ==> st.batches[b].phase.Done()
    ensures FinalOutcome(st, p).Fulfilled? || FinalOutcome(st, p).Rejected?
    ensures st.promises[p].outcome.Follows? ==> !st.promises[st.promises[p].outcome.cached].origin.Hit?
  {
    hide CacheOk;
    assert PromiseOk(cfg, st, p);
    if st.promises[p].origin.Hit? {
      assert PromiseOk(cfg, st, st.promises[p].origin.cached);
    }
  }

  // ---------- A key is enqueued once ----------

  /** Whether a step removes a cache key: by clear, clearAll or a failed batch. */
  predicate Removes<K, V, C(==), E>(cfg: Config<K, C>, st: State<K, V, C, E>, event: Event<K, V, E>, c: C)
    requires Enabled(st, event)
  {
    match event
    case Clear(key) => cfg.cacheKey(key) == c
    case ClearAll => true
    case Dispatch(b, accepted) => !accepted && c in CacheKeys(cfg, st.batches[b].keys)
    case Settle(b, reply) => PhaseOf(reply, |st.batches[b].keys|).Failed? && c in CacheKeys(cfg, st.batches[b].keys)
    case _ => false
  }

  ghost predicate NeverRemoves<K, V, C, E>(cfg: Config<K, C>, st: State<K, V, C, E>, events: seq<Event<K, V, E>>, c: C)
    requires Inv(cfg, st)
    decreases |events|
  {
    events != [] ==>
      if !Enabled(st, events[0]) then NeverRemoves(cfg, st, events[1..], c)
      else
        && !Removes(cfg, st, events[0], c)
        && (StepKeepsInv(cfg, st, events[0]); NeverRemoves(cfg, Step(cfg, st, events[0]), events[1..], c))
  }

  /** How many promises were enqueued for a cache key, from a number on. */
  ghost function EnqueuedSince<K, V, C, E>(cfg: Config<K, C>, st: State<K, V, C, E>, c: C, start: nat): nat
    requires start <= |st.promises|
    decreases |st.promises| - start
  {
    if start == |st.promises| then 0
    else
      (if st.promises[start].origin.Enqueued? && cfg.cacheKey(st.promises[start].key) == c then 1 else 0)
      + EnqueuedSince(cfg, st, c, start + 1)
  }

  lemma StepEnqueues<K, V, C, E>(cfg: Config<K, C>, st: State<K, V, C, E>, event: Event<K, V, E>, c: C)
    requires Inv(cfg, st) && st.cacheMap.Some? && Enabled(st, event) && Paired(st) && !Removes(cfg, st, event, c)
    ensures var r := Step(cfg, st, event);
            && r.cacheMap.Some?
            && |st.promises| <= |r.promises| <= |st.promises| + 1
            && (c in st.cacheMap.value ==> c in r.cacheMap.value)
            && (|r.promises| > |st.promises| && r.promises[|st.promises|].origin.Enqueued?
                && cfg.cacheKey(r.promises[|st.promises|].key) == c
                ==> c !in st.cacheMap.value && c in r.cacheMap.value)
  {
    CurrentBatchHasRoom(cfg, st);
    hide Inv, WithCurrentBatch, SettleAll, CacheKeys;
  }

  /** Between two removals, a cache key is enqueued at most once; not at all if it is cached. */
  lemma {:induction false} EnqueuedOnce<K, V, C, E>(cfg: Config<K, C>, st: State<K, V, C, E>,
                                                    events: seq<Event<K, V, E>>, c: C)
    requires Inv(cfg, st) && st.cacheMap.Some? && NeverRemoves(cfg, st, events, c)
    ensures var r := Run(cfg, st, events);
            && |st.promises| <= |r.promises|
            && EnqueuedSince(cfg, r, c, |st.promises|) <= if c in st.cacheMap.value then 0 else 1
    decreases |events|
  {
    hide Inv, Enabled, Step, Removes;
    if events == [] {
    } else if !Enabled(st, events[0]) {
      EnqueuedOnce(cfg, st, events[1..], c);
      assert Run(cfg, st, events) == Run(cfg, st, events[1..]);
    } else {
      StepKeepsInv(cfg, st, events[0]);
      StepEnqueues(cfg, st, events[0], c);
      var next := Step(cfg, st, events[0]);
      EnqueuedOnce(cfg, next, events[1..], c);
      RunIsLater(cfg, next, events[1..]);
      assert Run(cfg, st, events) == Run(cfg, next, events[1..]);
    }
  }
}
