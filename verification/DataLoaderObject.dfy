/** The DataLoader class of packages/utils/src/dataloader.ts: each method does what its step specifies. */
module DataLoaderObjects {
  import opened Results
  import opened DataLoaders

  class DataLoader<K(==), V, C(==), E> {
    const cfg: Config<K, C>
    var promises: seq<Promise<K, V, E>>
    var batches: seq<Batch<K, V, E>>
    var batch: Option<nat>
    var cacheMap: Option<map<C, nat>>

    ghost function Model(): State<K, V, C, E>
      reads this
    {
      State(promises, batches, batch, cacheMap)
    }

    ghost predicate Valid()
      reads this
    {
      Inv(cfg, Model()) && Paired(Model())
    }

    constructor (cfg: Config<K, C>, caching: bool)
      requires cfg.maxBatchSize.Some? ==> cfg.maxBatchSize.value >= 1
      ensures Valid() && this.cfg == cfg && Model() == Initial(caching)
    {
      this.cfg := cfg;
      promises, batches, batch := [], [], None;
      cacheMap := if caching then Some(map[]) else None;
      new;
      InitialInv<K, V, C, E>(cfg, caching);
    }

    method GetCurrentBatch() returns (b: nat)
      requires Valid()
      modifies this
      ensures Model() == WithCurrentBatch(cfg, old(Model())) && batch == Some(b)
      ensures if old(batch.Some? && batch.value < |batches| && batches[batch.value].phase.Scheduled?
                     && (cfg.maxBatchSize.Some? ==> |batches[batch.value].keys| < cfg.maxBatchSize.value))
              then Some(b) == old(batch) && batches == old(batches)
              else b == old(|batches|) && batches == old(batches) + [Batch(Scheduled, [], [], [])]
    {
      if batch.Some? && batch.value < |batches| && HasRoom(cfg, batches[batch.value]) {
        return batch.value;
      }
      b := |batches|;
      batches := batches + [Batch(Scheduled, [], [], [])];
      batch := Some(b);
    }

    /** load: the number of the promise that it returns, whose key is the loaded one. */
    method Load(key: Option<K>) returns (r: Result<nat, LoadError<E>>)
      requires Valid()
      modifies this
      ensures Valid() && Model() == Step(cfg, old(Model()), Event.Load(key))
      ensures key.None? ==> r == Failure(WrongUse)
      ensures key.Some? ==>
                && r == Success(old(|promises|)) && |promises| == old(|promises|) + 1
                && promises[old(|promises|)].key == key.value
    {
      StepKeepsInv(cfg, Model(), Event.Load(key));
      InvPaired(cfg, Step(cfg, Model(), Event.Load(key)));
      hide Inv, Paired, WithCurrentBatch;
      if key.None? {
        return Failure(WrongUse);
      }
      ghost var before := Model();
      assert WithCurrentBatch(cfg, before).promises == promises
          && WithCurrentBatch(cfg, before).cacheMap == cacheMap by {
        SameAfterCurrentBatch(cfg, before);
      }
      var b := GetCurrentBatch();
      var p := |promises|;
      if cacheMap.Some? {
        var cacheKey := cfg.cacheKey(key.value);
        if cacheKey in cacheMap.value {
          var cached := cacheMap.value[cacheKey];
          promises := promises + [Promise(key.value, Hit(b, |batches[b].cacheHits|, cached), Pending)];
          batches := batches[b := batches[b].(cacheHits := batches[b].cacheHits + [(p, cached)])];
          return Success(p);
        }
      }
      promises := promises + [Promise(key.value, Enqueued(b, |batches[b].keys|), Pending)];
      batches := batches[b := batches[b].(keys := batches[b].keys + [key.value], callbacks := batches[b].callbacks
          + [p])];
      if cacheMap.Some? {
        cacheMap := Some(cacheMap.value[cfg.cacheKey(key.value) := p]);
      }
      return Success(p);
    }

    method Clear(key: K)
      requires Valid()
      modifies this`cacheMap
      ensures Valid() && Model() == Step(cfg, old(Model()), Event.Clear(key))
    {
      StepKeepsInv(cfg, Model(), Event.Clear(key));
      hide Inv;
      Delete(key);
    }

    method Delete(key: K)
      modifies this`cacheMap
      ensures cacheMap == Without(old(cacheMap), {cfg.cacheKey(key)})
    {
      if cacheMap.Some? {
        var cacheKey := cfg.cacheKey(key);
        cacheMap := Some(cacheMap.value - {cacheKey});
      }
    }

    method ClearAll()
      requires Valid()
      modifies this
      ensures Valid() && Model() == Step(cfg, old(Model()), Event.ClearAll)
    {
      StepKeepsInv(cfg, Model(), Event.ClearAll);
      hide Inv;
      if cacheMap.Some? {
        cacheMap := Some(map[]);
      }
    }

    method Prime(key: K, value: Result<V, E>)
      requires Valid()
      modifies this
      ensures Valid() && Model() == Step(cfg, old(Model()), Event.Prime(key, value))
    {
      StepKeepsInv(cfg, Model(), Event.Prime(key, value));
      hide Inv;
      if cacheMap.Some? {
        var cacheKey := cfg.cacheKey(key);
        if cacheKey !in cacheMap.value {
          cacheMap := Some(cacheMap.value[cacheKey := |promises|]);
          promises := promises + [Promise(key, Primed, OutcomeOf(value))];
        }
      }
    }

    /** The scheduled callback of a batch. */
    method DispatchBatch(b: nat, accepted: bool)
      requires Valid() && Enabled(Model(), Dispatch(b, accepted))
      modifies this
      ensures Valid() && Model() == Step(cfg, old(Model()), Dispatch(b, accepted))
    {
      StepKeepsInv(cfg, Model(), Dispatch(b, accepted));
      InvPaired(cfg, Step(cfg, Model(), Dispatch(b, accepted)));
      hide Inv, SettleAll, CacheKeys;
      ghost var before := Model();
      assert |batches[b].keys| == |batches[b].callbacks|;
      batches := batches[b := batches[b].(phase := InFlight)];
      hide EndBatch;
      if |batches[b].keys| == 0 {
        EndAfterDispatch(cfg, before, b, Loaded([]));
        CallBack(b, Loaded([]));
      } else if !accepted {
        EndAfterDispatch(cfg, before, b, Failed(WrongUse));
        FailedDispatch(b, WrongUse);
      }
    }

    /** What follows the batch function's promise. */
    method SettleBatch(b: nat, reply: Reply<V, E>)
      requires Valid() && Enabled(Model(), Settle(b, reply))
      modifies this
      ensures Valid() && Model() == Step(cfg, old(Model()), Settle(b, reply))
    {
      StepKeepsInv(cfg, Model(), Settle(b, reply));
      InvPaired(cfg, Step(cfg, Model(), Settle(b, reply)));
      hide Inv, SettleAll, CacheKeys;
      assert |batches[b].keys| == |batches[b].callbacks|;
      match reply {
        case NotArray =>
          FailedDispatch(b, WrongUse);
        case RejectedWith(e) =>
          FailedDispatch(b, Raised(e));
        case Values(values) =>
          if |values| != |batches[b].keys| {
            FailedDispatch(b, WrongUse);
          } else {
            CallBack(b, Loaded(values));
          }
      }
    }

    /** The cache hits, and then every callback with its value. */
    method CallBack(b: nat, phase: Phase<V, E>)
      requires b < |batches| && phase.Loaded? && |phase.values| == |batches[b].callbacks|
      modifies this
      ensures Model() == EndBatch(cfg, old(Model()), b, phase)
    {
      var callbacks := batches[b].callbacks;
      ResolveHits(b);
      ghost var resolved := promises;
      ghost var outcomes := CallbackOutcomes(phase, |callbacks|);
      var i := 0;
      while i < |callbacks|
        invariant 0 <= i <= |callbacks|
        invariant promises == SettleAll(resolved, callbacks[..i], outcomes[..i])
        invariant batches == old(batches) && batch == old(batch) && cacheMap == old(cacheMap)
      {
        SettleOneMore(resolved, callbacks, outcomes, i);
        var p := callbacks[i];
        if p < |promises| {
          promises := promises[p := promises[p].(outcome := OutcomeOf(phase.values[i]))];
        }
        i := i + 1;
      }
      assert callbacks[..i] == callbacks && outcomes[..i] == outcomes;
      batches := batches[b := batches[b].(phase := phase)];
    }

    /** The cache hits are resolved, and every key is removed from the cache and its promise rejected. */
    method FailedDispatch(b: nat, error: LoadError<E>)
      requires b < |batches| && |batches[b].keys| == |batches[b].callbacks|
      modifies this
      ensures Model() == EndBatch(cfg, old(Model()), b, Failed(error))
    {
      var keys, callbacks := batches[b].keys, batches[b].callbacks;
      ResolveHits(b);
      ghost var resolved := promises;
      ghost var outcomes := CallbackOutcomes(Phase<V, E>.Failed(error), |callbacks|);
      var i := 0;
      WithoutNone(cfg, old(cacheMap), keys);
      while i < |keys|
        invariant 0 <= i <= |keys|
        invariant promises == SettleAll(resolved, callbacks[..i], outcomes[..i])
        invariant cacheMap == Without(old(cacheMap), CacheKeys(cfg, keys[..i]))
        invariant batches == old(batches) && batch == old(batch)
      {
        hide SettleAll, CallbackOutcomes, Without;
        Delete(keys[i]);
        WithoutMore(cfg, old(cacheMap), keys, i);
        SettleOneMore(resolved, callbacks, outcomes, i);
        var p := callbacks[i];
        if p < |promises| {
          promises := promises[p := promises[p].(outcome := Rejected(error))];
        }
        i := i + 1;
      }
      assert callbacks[..i] == callbacks && outcomes[..i] == outcomes && keys[..i] == keys;
      batches := batches[b := batches[b].(phase := Failed(error))];
    }

    method ResolveHits(b: nat)
      requires b < |batches|
      modifies this`promises
      ensures promises == ResolveCacheHits(old(promises), batches[b].cacheHits)
    {
      var hits := batches[b].cacheHits;
      ghost var ids, outcomes := HitPromises(hits), HitOutcomes<V, E>(hits);
      var i := 0;
      while i < |hits|
        invariant 0 <= i <= |hits|
        invariant promises == SettleAll(old(promises), ids[..i], outcomes[..i])
      {
        SettleOneMore(old(promises), ids, outcomes, i);
        var (p, cached) := hits[i];
        if p < |promises| {
          promises := promises[p := promises[p].(outcome := Follows(cached))];
        }
        i := i + 1;
      }
      assert ids[..i] == ids && outcomes[..i] == outcomes;
    }
  }

  lemma SameAfterCurrentBatch<K, V, C, E>(cfg: Config<K, C>, st: State<K, V, C, E>)
    ensures WithCurrentBatch(cfg, st).promises == st.promises && WithCurrentBatch(cfg, st).cacheMap == st.cacheMap
  {
  }

  lemma SettleOneMore<K, V, E>(promises: seq<Promise<K, V, E>>, ids: seq<nat>, outcomes: seq<Outcome<V, E>>, i: nat)
    requires i < |ids| == |outcomes|
    ensures var rest := SettleAll(promises, ids[..i], outcomes[..i]);
            var r := SettleAll(promises, ids[..i + 1], outcomes[..i + 1]);
            r == if ids[i] < |rest| then rest[ids[i] := rest[ids[i]].(outcome := outcomes[i])] else rest
  {
    assert ids[..i + 1][..i] == ids[..i] && outcomes[..i + 1][..i] == outcomes[..i];
  }

  lemma EndAfterDispatch<K, V, C, E>(cfg: Config<K, C>, st: State<K, V, C, E>, b: nat, phase: Phase<V, E>)
    requires b < |st.batches| && Ends(phase, |st.batches[b].callbacks|)
    ensures var r := st.(batches := st.batches[b := st.batches[b].(phase := InFlight)]);
            EndBatch(cfg, r, b, phase) == EndBatch(cfg, st, b, phase)
  {
    hide SettleAll, CacheKeys, CallbackOutcomes;
    var r := st.(batches := st.batches[b := st.batches[b].(phase := InFlight)]);
    assert r.batches[b := r.batches[b].(phase := phase)] == st.batches[b := st.batches[b].(phase := phase)];
  }

  lemma WithoutNone<K, C>(cfg: Config<K, C>, cacheMap: Option<map<C, nat>>, keys: seq<K>)
    ensures Without(cacheMap, CacheKeys(cfg, keys[..0])) == cacheMap
  {
    assert CacheKeys(cfg, keys[..0]) == {};
    if cacheMap.Some? {
      assert cacheMap.value - {} == cacheMap.value;
    }
  }

  lemma WithoutMore<K, C>(cfg: Config<K, C>, cacheMap: Option<map<C, nat>>, keys: seq<K>, i: nat)
    requires i < |keys|
    ensures Without(Without(cacheMap, CacheKeys(cfg, keys[..i])), {cfg.cacheKey(keys[i])})
        == Without(cacheMap, CacheKeys(cfg, keys[..i + 1]))
  {
    OneMoreKey(cfg, keys, i);
    hide CacheKeys, Without;
    WithoutTwice(cacheMap, CacheKeys(cfg, keys[..i]), cfg.cacheKey(keys[i]));
  }

  lemma WithoutTwice<C, V>(cacheMap: Option<map<C, V>>, removed: set<C>, c: C)
    ensures Without(Without(cacheMap, removed), {c}) == Without(cacheMap, removed + {c})
  {
    if cacheMap.Some? {
      assert (cacheMap.value - removed) - {c} == cacheMap.value - (removed + {c});
    }
  }

  lemma OneMoreKey<K, C>(cfg: Config<K, C>, keys: seq<K>, i: nat)
    requires i < |keys|
    ensures CacheKeys(cfg, keys[..i + 1]) == CacheKeys(cfg, keys[..i]) + {cfg.cacheKey(keys[i])}
  {
    forall c | c in CacheKeys(cfg, keys[..i])
      ensures c in CacheKeys(cfg, keys[..i + 1])
    {
      var j :| 0 <= j < i && c == cfg.cacheKey(keys[..i][j]);
      assert keys[..i + 1][j] == keys[..i][j];
    }
    assert keys[..i + 1][i] == keys[i];
    assert cfg.cacheKey(keys[i]) in CacheKeys(cfg, keys[..i + 1]);
    forall c | c in CacheKeys(cfg, keys[..i + 1])
      ensures c in CacheKeys(cfg, keys[..i]) + {cfg.cacheKey(keys[i])}
    {
      var j :| 0 <= j < i + 1 && c == cfg.cacheKey(keys[..i + 1][j]);
      if j < i {
        assert keys[..i][j] == keys[..i + 1][j];
      }
    }
  }
}
