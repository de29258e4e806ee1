/** What the DataLoader class of packages/utils/src/dataloader.ts is for, over whole runs: loads share
    batches that fill up to the limit, and a key is enqueued again exactly after it was forgotten. */
module DataLoaderBatches {
  import opened DataLoaders
  import opened Results
  import opened Sequences

  /** The state that a new loader is in after some events. */
  ghost function After<K, V, C, E>(cfg: Config<K, C>, caching: bool, events: seq<Event<K, V, E>>): State<K, V, C, E>
    requires cfg.maxBatchSize.Some? ==> cfg.maxBatchSize.value >= 1
  {
    InitialInv<K, V, C, E>(cfg, caching);
    Run(cfg, Initial(caching), events)
  }

  // ---------- Only the current batch has room ----------

  ghost predicate OthersFull<K, V, C, E>(cfg: Config<K, C>, st: State<K, V, C, E>) {
    forall b :: 0 <= b < |st.batches| && st.batches[b].phase.Scheduled? && st.batch != Some(b) ==>
      cfg.maxBatchSize.Some? && |st.batches[b].keys| >= cfg.maxBatchSize.value
  }

  lemma StepKeepsOthersFull<K, V, C, E>(cfg: Config<K, C>, st: State<K, V, C, E>, event: Event<K, V, E>)
    requires Paired(st) && Enabled(st, event) && OthersFull(cfg, st)
    ensures OthersFull(cfg, Step(cfg, st, event))
  {
    hide SettleAll, CacheKeys;
  }

  lemma {:induction false} RunKeepsOthersFull<K, V, C, E>(cfg: Config<K, C>, st: State<K, V, C, E>,
                                                          events: seq<Event<K, V, E>>)
    requires Inv(cfg, st) && OthersFull(cfg, st)
    ensures OthersFull(cfg, Run(cfg, st, events))
    decreases |events|
  {
    hide Inv, Enabled, Step, OthersFull;
    if events != [] {
      if !Enabled(st, events[0]) {
        RunKeepsOthersFull(cfg, st, events[1..]);
      } else {
        StepKeepsInv(cfg, st, events[0]);
        StepKeepsOthersFull(cfg, st, events[0]);
        RunKeepsOthersFull(cfg, Step(cfg, st, events[0]), events[1..]);
      }
    }
  }

  /** In every reachable state a batch that waits for its dispatch and is not the current one holds as
      many keys as the limit allows; without a limit no such batch exists. */
  lemma WaitingBatchesAreFull<K, V, C, E>(cfg: Config<K, C>, caching: bool, events: seq<Event<K, V, E>>, b: nat)
    requires cfg.maxBatchSize.Some? ==> cfg.maxBatchSize.value >= 1
    requires var st := After<K, V, C, E>(cfg, caching, events);
             b < |st.batches| && st.batches[b].phase.Scheduled? && st.batch != Some(b)
    ensures cfg.maxBatchSize == Some(|After<K, V, C, E>(cfg, caching, events).batches[b].keys|)
  {
    InitialInv<K, V, C, E>(cfg, caching);
    var start := Initial<K, V, C, E>(caching);
    RunKeepsOthersFull(cfg, start, events);
    RunKeepsInv(cfg, start, events);
    assert BatchOk(cfg, Run(cfg, start, events), b);
  }

  // ---------- Loads with no dispatch between them ----------

  function Loads<K, V, E>(keys: seq<K>): (r: seq<Event<K, V, E>>)
    ensures |r| == |keys| && forall i :: 0 <= i < |r| ==> r[i] == Load(Some(keys[i]))
  {
    Map((key: K) => Event<K, V, E>.Load(Some(key)), keys)
  }

  ghost function BatchKeys<K, V, C, E>(st: State<K, V, C, E>): (r: seq<seq<K>>)
    ensures |r| == |st.batches| && forall b :: 0 <= b < |r| ==> r[b] == st.batches[b].keys
  {
    Map((batch: Batch<K, V, E>) => batch.keys, st.batches)
  }

  /** No two keys of a list share a cache key. */
  ghost predicate Fresh<K, C>(cfg: Config<K, C>, keys: seq<K>) {
    forall i, j :: 0 <= i < j < |keys| ==> cfg.cacheKey(keys[i]) != cfg.cacheKey(keys[j])
  }

  /** All lists but the last have the length of the limit, and the last is not empty. */
  ghost predicate Packed<K>(limit: Option<nat>, parts: seq<seq<K>>) {
    && (forall b :: 0 <= b < |parts| ==> parts[b] != [] && (limit.Some? ==> |parts[b]| <= limit.value))
    && (forall b :: 0 <= b < |parts| - 1 ==> limit == Some(|parts[b]|))
  }

  ghost predicate LastIsCurrent<K, V, C, E>(st: State<K, V, C, E>) {
    st.batch == (if st.batches == [] then None else Some(|st.batches| - 1))
  }

  ghost predicate BatchesLoaded<K, V, C, E>(cfg: Config<K, C>, st: State<K, V, C, E>, keys: seq<K>) {
    && LastIsCurrent(st)
    && (forall b :: 0 <= b < |st.batches| ==> st.batches[b].phase.Scheduled?)
    && Packed(cfg.maxBatchSize, BatchKeys(st)) && Concatenate(BatchKeys(st)) == keys
  }

  ghost predicate PromisesLoaded<K, V, C, E>(st: State<K, V, C, E>, keys: seq<K>) {
    && |st.promises| == |keys|
    && (forall p :: 0 <= p < |keys| ==> st.promises[p].key == keys[p] && st.promises[p].origin.Enqueued?)
  }

  ghost predicate OnlyCached<K, V, C, E>(cfg: Config<K, C>, st: State<K, V, C, E>, keys: seq<K>) {
    st.cacheMap.Some? ==> forall c :: c in st.cacheMap.value ==>
      exists i :: 0 <= i < |keys| && cfg.cacheKey(keys[i]) == c
  }

  /** The state after the loads of a list of keys and nothing else. */
  ghost predicate JustLoaded<K, V, C, E>(cfg: Config<K, C>, st: State<K, V, C, E>, keys: seq<K>) {
    BatchesLoaded(cfg, st, keys) && PromisesLoaded(st, keys) && OnlyCached(cfg, st, keys)
  }

  lemma ConcatenateAppend<T>(parts: seq<seq<T>>, part: seq<T>)
    ensures Concatenate(parts + [part]) == Concatenate(parts) + part
  {
    var more := parts + [part];
    assert more[..|parts|] == parts && more[|parts|..] == [part];
    ConcatenateSplits(more, |parts|);
    assert Concatenate([part]) == part + Concatenate([]);
  }

  lemma ConcatenateGrowsLast<T>(parts: seq<seq<T>>, x: T)
    requires parts != []
    ensures var n := |parts| - 1; Concatenate(parts[n := parts[n] + [x]]) == Concatenate(parts) + [x]
  {
    var n := |parts| - 1;
    assert parts == parts[..n] + [parts[n]] && parts[n := parts[n] + [x]] == parts[..n] + [parts[n] + [x]];
    ConcatenateAppend(parts[..n], parts[n]);
    ConcatenateAppend(parts[..n], parts[n] + [x]);
  }

  /** One more key goes into the last list if there is room, and into a new one otherwise. */
  ghost function OneMore<K>(limit: Option<nat>, parts: seq<seq<K>>, key: K): (r: seq<seq<K>>)
    ensures r != []
  {
    var n := |parts|;
    if n > 0 && (limit.Some? ==> |parts[n - 1]| < limit.value) then parts[n - 1 := parts[n - 1] + [key]]
    else parts + [[key]]
  }

  lemma BatchKeysAfterLoad<K, V, C, E>(cfg: Config<K, C>, st: State<K, V, C, E>, key: K)
    requires Paired(st) && LastIsCurrent(st) && forall b :: 0 <= b < |st.batches| ==> st.batches[b].phase.Scheduled?
    requires st.cacheMap.Some? ==> cfg.cacheKey(key) !in st.cacheMap.value
    ensures var r := Step(cfg, st, Load(Some(key)));
            && LastIsCurrent(r) && BatchKeys(r) == OneMore(cfg.maxBatchSize, BatchKeys(st), key)
            && (forall b :: 0 <= b < |r.batches| ==> r.batches[b].phase.Scheduled?)
            && r.promises[..|st.promises|] == st.promises && |r.promises| == |st.promises| + 1
            && r.promises[|st.promises|].key == key && r.promises[|st.promises|].origin.Enqueued?
  {
    var (r, parts, n) := (Step(cfg, st, Load(Some(key))), BatchKeys(st), |st.batches|);
    if n > 0 && HasRoom(cfg, st.batches[n - 1]) {
      assert |r.batches| == n && r.batches[n - 1].keys == parts[n - 1] + [key];
    } else {
      assert |r.batches| == n + 1 && r.batches[n].keys == [key];
      assert forall b :: 0 <= b < n ==> r.batches[b] == st.batches[b];
    }
  }

  lemma PackedOneMore<K>(limit: Option<nat>, parts: seq<seq<K>>, key: K)
    requires (limit.Some? ==> limit.value >= 1) && Packed(limit, parts)
    ensures var more := OneMore(limit, parts, key);
            Packed(limit, more) && Concatenate(more) == Concatenate(parts) + [key]
  {
    hide Concatenate;
    if |parts| > 0 {
      ConcatenateGrowsLast(parts, key);
    }
    ConcatenateAppend(parts, [key]);
  }

  lemma LoadsOneMore<K, V, C, E>(cfg: Config<K, C>, st: State<K, V, C, E>, keys: seq<K>, key: K)
    requires (cfg.maxBatchSize.Some? ==> cfg.maxBatchSize.value >= 1) && Paired(st)
    requires JustLoaded(cfg, st, keys)
    requires st.cacheMap.Some? ==> Fresh(cfg, keys + [key])
    ensures JustLoaded(cfg, Step(cfg, st, Load(Some(key))), keys + [key])
  {
    hide BatchesLoaded, PromisesLoaded, OnlyCached, Fresh, Step, Paired;
    FreshIsNotCached(cfg, st, keys, key);
    CacheAfterLoad(cfg, st, keys, key);
    BatchesAfterLoad(cfg, st, keys, key);
    PromisesAfterLoad(cfg, st, keys, key);
  }

  lemma PromisesAfterLoad<K, V, C, E>(cfg: Config<K, C>, st: State<K, V, C, E>, keys: seq<K>, key: K)
    requires Paired(st) && LastIsCurrent(st) && PromisesLoaded(st, keys)
    requires forall b :: 0 <= b < |st.batches| ==> st.batches[b].phase.Scheduled?
    requires st.cacheMap.Some? ==> cfg.cacheKey(key) !in st.cacheMap.value
    ensures PromisesLoaded(Step(cfg, st, Load(Some(key))), keys + [key])
  {
    BatchKeysAfterLoad(cfg, st, key);
    hide Step, Paired, LastIsCurrent, OneMore, BatchKeys;
    var r := Step(cfg, st, Load(Some(key)));
    forall p | 0 <= p < |keys| + 1
      ensures r.promises[p].key == (keys + [key])[p] && r.promises[p].origin.Enqueued?
    {
      if p < |keys| {
        assert r.promises[p] == r.promises[..|keys|][p];
      }
    }
  }

  lemma BatchesAfterLoad<K, V, C, E>(cfg: Config<K, C>, st: State<K, V, C, E>, keys: seq<K>, key: K)
    requires (cfg.maxBatchSize.Some? ==> cfg.maxBatchSize.value >= 1) && Paired(st) && BatchesLoaded(cfg, st, keys)
    requires st.cacheMap.Some? ==> cfg.cacheKey(key) !in st.cacheMap.value
    ensures LastIsCurrent(st) && forall b :: 0 <= b < |st.batches| ==> st.batches[b].phase.Scheduled?
    ensures BatchesLoaded(cfg, Step(cfg, st, Load(Some(key))), keys + [key])
  {
    BatchKeysAfterLoad(cfg, st, key);
    hide Step, Paired, Packed, Concatenate, OneMore;
    PackedOneMore(cfg.maxBatchSize, BatchKeys(st), key);
  }

  lemma FreshIsNotCached<K, V, C, E>(cfg: Config<K, C>, st: State<K, V, C, E>, keys: seq<K>, key: K)
    requires OnlyCached(cfg, st, keys)
    requires st.cacheMap.Some? ==> Fresh(cfg, keys + [key])
    ensures st.cacheMap.Some? ==> cfg.cacheKey(key) !in st.cacheMap.value
  {
    var more := keys + [key];
    assert forall i :: 0 <= i < |keys| ==> more[i] == keys[i];
    assert more[|keys|] == key;
  }

  lemma CacheAfterLoad<K, V, C, E>(cfg: Config<K, C>, st: State<K, V, C, E>, keys: seq<K>, key: K)
    requires Paired(st) && OnlyCached(cfg, st, keys)
    ensures OnlyCached(cfg, Step(cfg, st, Load(Some(key))), keys + [key])
  {
    var r := Step(cfg, st, Load(Some(key)));
    if r.cacheMap.Some? {
      forall c | c in r.cacheMap.value
        ensures exists i :: 0 <= i < |keys + [key]| && cfg.cacheKey((keys + [key])[i]) == c
      {
        if c in st.cacheMap.value {
          var i :| 0 <= i < |keys| && cfg.cacheKey(keys[i]) == c;
          assert (keys + [key])[i] == keys[i];
        } else {
          assert (keys + [key])[|keys|] == key;
        }
      }
    }
  }

  lemma {:induction false} LoadsMore<K, V, C, E>(cfg: Config<K, C>, st: State<K, V, C, E>, done: seq<K>, keys: seq<K>)
    requires Inv(cfg, st) && JustLoaded(cfg, st, done)
    requires st.cacheMap.Some? ==> Fresh(cfg, done + keys)
    ensures JustLoaded(cfg, Run(cfg, st, Loads(keys)), done + keys)
    decreases |keys|
  {
    if keys == [] {
      assert done + keys == done;
    } else {
      var event := Event<K, V, E>.Load(Some(keys[0]));
      assert Loads<K, V, E>(keys)[1..] == Loads(keys[1..]);
      StepKeepsInv(cfg, st, event);
      InvPaired(cfg, st);
      assert (done + [keys[0]]) + keys[1..] == done + keys;
      assert st.cacheMap.Some? ==> Fresh(cfg, done + [keys[0]]) by {
        var more := done + [keys[0]];
        assert forall i :: 0 <= i < |more| ==> more[i] == (done + keys)[i];
      }
      LoadsOneMore(cfg, st, done, keys[0]);
      var next := Step(cfg, st, event);
      assert next.cacheMap.Some? ==> st.cacheMap.Some?;
      hide Inv, Step, JustLoaded, Fresh;
      LoadsMore(cfg, next, done + [keys[0]], keys[1..]);
    }
  }

  /** How many lists a packed one has. */
  lemma {:induction false} PackedLength<K>(limit: nat, parts: seq<seq<K>>)
    requires limit >= 1 && Packed(Some(limit), parts) && parts != []
    ensures (|parts| - 1) * limit < |Concatenate(parts)| <= |parts| * limit
  {
    if |parts| == 1 {
      assert Concatenate(parts) == parts[0] + Concatenate([]);
    } else {
      PackedLength(limit, parts[1..]);
      assert |parts| * limit == (|parts| - 1) * limit + limit;
      assert (|parts| - 1) * limit == (|parts| - 2) * limit + limit;
    }
  }

  lemma Multiples(a: int, b: int, m: nat)
    ensures a <= b ==> a * m <= b * m
  {
  }

  lemma RoundedUp(count: nat, limit: nat, n: nat)
    requires limit >= 1 && (count - 1) * limit < n <= count * limit
    ensures count == (n + limit - 1) / limit
  {
    var q, rest := (n + limit - 1) / limit, (n + limit - 1) % limit;
    assert q * limit + rest == n + limit - 1;
    Multiples(q + 1, count, limit);
    Multiples(count + 1, q, limit);
  }

  /** Loads of different keys, with no dispatch between them, share batches. Without a limit they are
      in one, with a limit in as few as it allows; the batches' keys, one after the other, are the
      loaded keys in their order, all batches but the last are full, and every load got a promise of
      its own for its key. Without caching the keys need not differ. */
  lemma LoadsShareBatches<K, V, C, E>(cfg: Config<K, C>, caching: bool, keys: seq<K>)
    requires cfg.maxBatchSize.Some? ==> cfg.maxBatchSize.value >= 1
    requires caching ==> forall i, j :: 0 <= i < j < |keys| ==> cfg.cacheKey(keys[i]) != cfg.cacheKey(keys[j])
    ensures var st := After<K, V, C, E>(cfg, caching, Loads(keys));
            && |st.batches| == (if keys == [] then 0
                                else if cfg.maxBatchSize.None? then 1
                                else (|keys| + cfg.maxBatchSize.value - 1) / cfg.maxBatchSize.value)
            && Concatenate(Map((batch: Batch<K, V, E>) => batch.keys, st.batches)) == keys
            && (forall b :: 0 <= b < |st.batches| ==>
                  st.batches[b].phase.Scheduled? && |st.batches[b].keys| > 0)
            && (forall b :: 0 <= b < |st.batches| - 1 ==> cfg.maxBatchSize == Some(|st.batches[b].keys|))
            && |st.promises| == |keys|
            && (forall p :: 0 <= p < |keys| ==> st.promises[p].key == keys[p] && st.promises[p].origin.Enqueued?)
  {
    InitialInv<K, V, C, E>(cfg, caching);
    var start := Initial<K, V, C, E>(caching);
    assert [] + keys == keys;
    assert BatchKeys(start) == [] && Concatenate(BatchKeys(start)) == [];
    hide Inv, Run;
    LoadsMore(cfg, start, [], keys);
    hide *;
    JustLoadedMeans(cfg, Run(cfg, start, Loads(keys)), keys);
  }

  lemma JustLoadedMeans<K, V, C, E>(cfg: Config<K, C>, st: State<K, V, C, E>, keys: seq<K>)
    requires (cfg.maxBatchSize.Some? ==> cfg.maxBatchSize.value >= 1) && JustLoaded(cfg, st, keys)
    ensures |st.batches| == if keys == [] then 0 else if cfg.maxBatchSize.None? then 1
                            else (|keys| + cfg.maxBatchSize.value - 1) / cfg.maxBatchSize.value
    ensures Concatenate(Map((batch: Batch<K, V, E>) => batch.keys, st.batches)) == keys
    ensures forall b :: 0 <= b < |st.batches| ==> st.batches[b].phase.Scheduled? && |st.batches[b].keys| > 0
    ensures forall b :: 0 <= b < |st.batches| - 1 ==> cfg.maxBatchSize == Some(|st.batches[b].keys|)
    ensures |st.promises| == |keys|
    ensures forall p :: 0 <= p < |keys| ==> st.promises[p].key == keys[p] && st.promises[p].origin.Enqueued?
  {
    var parts := BatchKeys(st);
    PackedCount(cfg.maxBatchSize, parts);
    assert parts == Map((batch: Batch<K, V, E>) => batch.keys, st.batches);
    hide Concatenate, Map;
    assert forall b :: 0 <= b < |st.batches| ==> parts[b] == st.batches[b].keys;
  }

  lemma PackedCount<K>(limit: Option<nat>, parts: seq<seq<K>>)
    requires (limit.Some? ==> limit.value >= 1) && Packed(limit, parts)
    ensures var n := |Concatenate(parts)|;
            |parts| == if n == 0 then 0 else if limit.None? then 1 else (n + limit.value - 1) / limit.value
  {
    NonEmptyParts(parts);
    EmptyConcatenation<K>();
    hide Concatenate;
    if limit.Some? && parts != [] {
      PackedLength(limit.value, parts);
      RoundedUp(|parts|, limit.value, |Concatenate(parts)|);
    }
  }

  lemma {:induction false} NonEmptyParts<T>(parts: seq<seq<T>>)
    requires forall b :: 0 <= b < |parts| ==> parts[b] != []
    ensures |Concatenate(parts)| >= |parts|
  {
    if parts != [] {
      NonEmptyParts(parts[1..]);
    }
  }

  // ---------- A key is enqueued again after it was forgotten, and not before ----------

  /** Whether a load or a prime of an event concerns a cache key. */
  predicate Names<K, V, C(==), E>(cfg: Config<K, C>, event: Event<K, V, E>, c: C) {
    match event
    case Load(Some(key)) => cfg.cacheKey(key) == c
    case Prime(key, _) => cfg.cacheKey(key) == c
    case _ => false
  }

  /** Clearing the key or everything, or the failure of a batch that holds the key: the batch function
      throws or returns no promise, or its promise is rejected or comes to something other than an
      array of as many values as the batch has keys. */
  ghost predicate Forgets<K, V, C, E>(cfg: Config<K, C>, st: State<K, V, C, E>, event: Event<K, V, E>, c: C) {
    match event
    case Clear(key) => cfg.cacheKey(key) == c
    case ClearAll => true
    case Dispatch(b, accepted) => b < |st.batches| && !accepted && Holds(cfg, st.batches[b].keys, c)
    case Settle(b, reply) =>
      b < |st.batches| && Holds(cfg, st.batches[b].keys, c)
      && (reply.Values? ==> |reply.values| != |st.batches[b].keys|)
    case _ => false
  }

  ghost predicate Holds<K, C>(cfg: Config<K, C>, keys: seq<K>, c: C) {
    exists i :: 0 <= i < |keys| && cfg.cacheKey(keys[i]) == c
  }

  lemma RemovesIsForgets<K, V, C, E>(cfg: Config<K, C>, st: State<K, V, C, E>, event: Event<K, V, E>, c: C)
    requires Enabled(st, event)
    ensures Removes(cfg, st, event, c) <==> Forgets(cfg, st, event, c)
  {
  }

  lemma {:induction false} RunAppend<K, V, C, E>(cfg: Config<K, C>, st: State<K, V, C, E>, a: seq<Event<K, V, E>>,
                                                 b: seq<Event<K, V, E>>)
    requires Inv(cfg, st)
    ensures Inv(cfg, Run(cfg, st, a)) && Run(cfg, st, a + b) == Run(cfg, Run(cfg, st, a), b)
    decreases |a|
  {
    hide Inv, Step, Enabled;
    if a == [] {
      assert a + b == b;
    } else {
      assert (a + b)[1..] == a[1..] + b;
      if Enabled(st, a[0]) {
        StepKeepsInv(cfg, st, a[0]);
        RunAppend(cfg, Step(cfg, st, a[0]), a[1..], b);
      } else {
        RunAppend(cfg, st, a[1..], b);
      }
    }
  }

  lemma StepForgets<K, V, C, E>(cfg: Config<K, C>, st: State<K, V, C, E>, event: Event<K, V, E>, c: C)
    requires Paired(st) && Enabled(st, event) && Forgets(cfg, st, event, c)
    ensures var r := Step(cfg, st, event); r.cacheMap.Some? ==> c !in r.cacheMap.value
  {
    hide SettleAll;
  }

  lemma {:induction false} StaysForgotten<K, V, C, E>(cfg: Config<K, C>, st: State<K, V, C, E>,
                                                      events: seq<Event<K, V, E>>, c: C)
    requires Inv(cfg, st) && (st.cacheMap.Some? ==> c !in st.cacheMap.value)
    requires forall i :: 0 <= i < |events| ==> !Names(cfg, events[i], c)
    ensures var r := Run(cfg, st, events); r.cacheMap.Some? ==> c !in r.cacheMap.value
    decreases |events|
  {
    hide Inv, Enabled, Names;
    if events != [] {
      if Enabled(st, events[0]) {
        StepKeepsInv(cfg, st, events[0]);
        InvPaired(cfg, st);
        UnnamedStaysForgotten(cfg, st, events[0], c);
        hide Step;
        StaysForgotten(cfg, Step(cfg, st, events[0]), events[1..], c);
      } else {
        StaysForgotten(cfg, st, events[1..], c);
      }
    }
  }

  lemma UnnamedStaysForgotten<K, V, C, E>(cfg: Config<K, C>, st: State<K, V, C, E>, event: Event<K, V, E>, c: C)
    requires Paired(st) && Enabled(st, event) && !Names(cfg, event, c)
    requires st.cacheMap.Some? ==> c !in st.cacheMap.value
    ensures var r := Step(cfg, st, event); r.cacheMap.Some? ==> c !in r.cacheMap.value
  {
    hide SettleAll;
  }

  /** A load makes one promise for its key, in a batch that still waits for its dispatch. */
  ghost predicate Enqueues<K, V, C, E>(st: State<K, V, C, E>, r: State<K, V, C, E>, key: K) {
    var p := |st.promises|;
    && |r.promises| == p + 1 && r.promises[p].key == key && r.promises[p].outcome == Pending
    && match r.promises[p].origin
       case Enqueued(b, i) =>
         && b < |r.batches| && r.batches[b].phase.Scheduled?
         && i == |r.batches[b].keys| - 1 && r.batches[b].keys[i] == key
       case _ => false
  }

  lemma LoadEnqueues<K, V, C, E>(cfg: Config<K, C>, st: State<K, V, C, E>, key: K)
    requires Inv(cfg, st) && (st.cacheMap.Some? ==> cfg.cacheKey(key) !in st.cacheMap.value)
    ensures Enqueues(st, Run(cfg, st, [Load(Some(key))]), key)
  {
    InvPaired(cfg, st);
    var event := Event<K, V, E>.Load(Some(key));
    StepKeepsInv(cfg, st, event);
    hide Inv;
    var r := Step(cfg, st, event);
    assert Run(cfg, st, [event]) == Run(cfg, r, [event][1..]) == r;
  }

  /** After a cache key is forgotten, its next load enqueues its key again, whatever happens in between
      that is not a load or a prime of it. */
  lemma LoadAfterForgettingEnqueues<K, V, C, E>(cfg: Config<K, C>, st: State<K, V, C, E>, forgetting: Event<K, V, E>,
                                                between: seq<Event<K, V, E>>, key: K)
    requires Inv(cfg, st) && Enabled(st, forgetting) && Forgets(cfg, st, forgetting, cfg.cacheKey(key))
    requires forall i :: 0 <= i < |between| ==> !Names(cfg, between[i], cfg.cacheKey(key))
    ensures Enqueues(Run(cfg, st, [forgetting] + between),
                     Run(cfg, st, [forgetting] + between + [Load(Some(key))]), key)
  {
    var events := [forgetting] + between;
    InvPaired(cfg, st);
    StepKeepsInv(cfg, st, forgetting);
    StepForgets(cfg, st, forgetting, cfg.cacheKey(key));
    hide Inv, Forgets, Enabled, Step, Names, Enqueues;
    StaysForgotten(cfg, Step(cfg, st, forgetting), between, cfg.cacheKey(key));
    assert events[1..] == between;
    assert Run(cfg, st, events) == Run(cfg, Step(cfg, st, forgetting), between);
    hide Run;
    RunAppend(cfg, st, events, [Load(Some(key))]);
    LoadEnqueues(cfg, Run(cfg, st, events), key);
  }

  // ---------- A cached key is never enqueued ----------

  /** No event of a run that happens forgets the cache key. */
  ghost predicate NeverForgets<K, V, C, E>(cfg: Config<K, C>, st: State<K, V, C, E>, events: seq<Event<K, V, E>>, c: C)
    requires Inv(cfg, st)
    decreases |events|
  {
    events != [] ==>
      if !Enabled(st, events[0]) then NeverForgets(cfg, st, events[1..], c)
      else
        && !Forgets(cfg, st, events[0], c)
        && (StepKeepsInv(cfg, st, events[0]); NeverForgets(cfg, Step(cfg, st, events[0]), events[1..], c))
  }

  lemma StepKeepsCached<K, V, C, E>(cfg: Config<K, C>, st: State<K, V, C, E>, event: Event<K, V, E>, c: C, p: nat)
    requires Paired(st) && Enabled(st, event) && !Forgets(cfg, st, event, c)
    requires st.cacheMap.Some? && c in st.cacheMap.value && st.cacheMap.value[c] == p
    ensures var r := Step(cfg, st, event); r.cacheMap.Some? && c in r.cacheMap.value && r.cacheMap.value[c] == p
  {
    hide SettleAll;
  }

  lemma {:induction false} StaysCached<K, V, C, E>(cfg: Config<K, C>, st: State<K, V, C, E>,
                                                   events: seq<Event<K, V, E>>, c: C, p: nat)
    requires Inv(cfg, st) && NeverForgets(cfg, st, events, c)
    requires st.cacheMap.Some? && c in st.cacheMap.value && st.cacheMap.value[c] == p
    ensures var r := Run(cfg, st, events); r.cacheMap.Some? && c in r.cacheMap.value && r.cacheMap.value[c] == p
    decreases |events|
  {
    hide Inv, Enabled, Forgets, Step;
    if events != [] {
      if Enabled(st, events[0]) {
        StepKeepsInv(cfg, st, events[0]);
        InvPaired(cfg, st);
        StepKeepsCached(cfg, st, events[0], c, p);
        StaysCached(cfg, Step(cfg, st, events[0]), events[1..], c, p);
      } else {
        StaysCached(cfg, st, events[1..], c, p);
      }
    }
  }

  /** A load makes one promise for its key that is to follow another one. */
  ghost predicate Hits<K, V, C, E>(st: State<K, V, C, E>, r: State<K, V, C, E>, key: K, cached: nat) {
    var p := |st.promises|;
    && |r.promises| == p + 1 && r.promises[p].key == key && r.promises[p].outcome == Pending
    && r.promises[..p] == st.promises
    && match r.promises[p].origin
       case Hit(b, i, q) =>
         && q == cached && b < |r.batches| && r.batches[b].phase.Scheduled?
         && i == |r.batches[b].cacheHits| - 1 && r.batches[b].cacheHits[i] == (p, cached)
       case _ => false
  }

  lemma LoadHits<K, V, C, E>(cfg: Config<K, C>, st: State<K, V, C, E>, key: K, p: nat)
    requires Inv(cfg, st) && st.cacheMap.Some?
    requires cfg.cacheKey(key) in st.cacheMap.value && st.cacheMap.value[cfg.cacheKey(key)] == p
    ensures Hits(st, Run(cfg, st, [Load(Some(key))]), key, p)
  {
    InvPaired(cfg, st);
    var event := Event<K, V, E>.Load(Some(key));
    StepKeepsInv(cfg, st, event);
    hide Inv;
    var r := Step(cfg, st, event);
    assert Run(cfg, st, [event]) == Run(cfg, r, [event][1..]) == r;
  }

  /** What an event has put into the cache for a cache key, a later load finds there, unless the key was
      forgotten in between. */
  lemma LoadAfterCachingHits<K, V, C, E>(cfg: Config<K, C>, st: State<K, V, C, E>, caching: Event<K, V, E>,
                                         between: seq<Event<K, V, E>>, key: K, p: nat)
    requires Inv(cfg, st) && Inv(cfg, Run(cfg, st, [caching]))
    requires var next := Run(cfg, st, [caching]);
             && next.cacheMap.Some? && cfg.cacheKey(key) in next.cacheMap.value
             && next.cacheMap.value[cfg.cacheKey(key)] == p
             && NeverForgets(cfg, next, between, cfg.cacheKey(key))
    ensures Hits(Run(cfg, st, [caching] + between), Run(cfg, st, [caching] + between + [Load(Some(key))]), key, p)
  {
    hide Inv, NeverForgets, Hits, Run;
    RunAppend(cfg, st, [caching], between);
    RunAppend(cfg, st, [caching] + between, [Load(Some(key))]);
    StaysCached(cfg, Run(cfg, st, [caching]), between, cfg.cacheKey(key), p);
    LoadHits(cfg, Run(cfg, st, [caching] + between), key, p);
  }

  /** A load of a key primed before, and not forgotten since, makes a promise that follows the primed
      one. Priming a key that is not cached makes a promise settled with the value or the error it was
      primed with; priming a cached key leaves the cached promise in place. */
  lemma LoadAfterPrimeHits<K, V, C, E>(cfg: Config<K, C>, st: State<K, V, C, E>, primed: K, value: Result<V, E>,
                                       between: seq<Event<K, V, E>>, key: K) returns (p: nat)
    requires Inv(cfg, st) && st.cacheMap.Some? && cfg.cacheKey(primed) == cfg.cacheKey(key)
    requires NeverForgets(cfg, st, [Prime(primed, value)] + between, cfg.cacheKey(key))
    ensures var events := [Prime(primed, value)] + between;
            Hits(Run(cfg, st, events), Run(cfg, st, events + [Load(Some(key))]), key, p)
    ensures cfg.cacheKey(key) in st.cacheMap.value ==> p == st.cacheMap.value[cfg.cacheKey(key)]
    ensures cfg.cacheKey(key) !in st.cacheMap.value ==>
        var r := Run(cfg, st, [Prime(primed, value)] + between + [Load(Some(key))]);
        && p < |r.promises| && r.promises[p].key == primed
        && r.promises[p].outcome == match value case Success(v) => Fulfilled(v) case Failure(e) => Rejected(Raised(e))
  {
    var event := Prime(primed, value);
    InvPaired(cfg, st);
    hide Inv, Hits;
    assert ([event] + between)[1..] == between;
    var next := Step(cfg, st, event);
    StepKeepsInv(cfg, st, event);
    assert NeverForgets(cfg, next, between, cfg.cacheKey(key));
    hide NeverForgets;
    assert Run(cfg, st, [event]) == Run(cfg, next, [event][1..]) == next;
    p := next.cacheMap.value[cfg.cacheKey(key)];
    var events := [event] + between + [Load(Some(key))];
    assert events[1..] == between + [Load(Some(key))];
    assert Run(cfg, st, events) == Run(cfg, next, between + [Load(Some(key))]);
    hide Run;
    LoadAfterCachingHits(cfg, st, event, between, key, p);
    RunIsLater(cfg, next, between + [Load(Some(key))]);
  }

  /** The same for two loads: the second one follows the promise that the first made, or that it
      followed itself. */
  lemma LoadAfterLoadHits<K, V, C, E>(cfg: Config<K, C>, st: State<K, V, C, E>, first: K,
                                      between: seq<Event<K, V, E>>, key: K) returns (p: nat)
    requires Inv(cfg, st) && st.cacheMap.Some? && cfg.cacheKey(first) == cfg.cacheKey(key)
    requires NeverForgets(cfg, st, [Load(Some(first))] + between, cfg.cacheKey(key))
    ensures var events := [Load(Some(first))] + between;
            Hits(Run(cfg, st, events), Run(cfg, st, events + [Load(Some(key))]), key, p)
    ensures p == if cfg.cacheKey(key) in st.cacheMap.value then st.cacheMap.value[cfg.cacheKey(key)] else |st.promises|
  {
    var event := Event<K, V, E>.Load(Some(first));
    InvPaired(cfg, st);
    hide Inv, Hits;
    assert ([event] + between)[1..] == between;
    var next := Step(cfg, st, event);
    StepKeepsInv(cfg, st, event);
    assert NeverForgets(cfg, next, between, cfg.cacheKey(key));
    hide NeverForgets;
    assert Run(cfg, st, [event]) == Run(cfg, next, [event][1..]) == next;
    p := next.cacheMap.value[cfg.cacheKey(key)];
    hide Run;
    LoadAfterCachingHits(cfg, st, event, between, key, p);
  }

  // ---------- What a batch function's reply makes of the promises ----------

  /** The outcome of the i-th promise of a batch of n keys. */
  function ReplyOutcome<V, E>(reply: Reply<V, E>, n: nat, i: nat): Outcome<V, E> {
    match reply
    case Values(values) =>
      if |values| == n && i < n
      then match values[i] case Success(v) => Fulfilled(v) case Failure(e) => Rejected(Raised(e))
      else Rejected(WrongUse)
    case NotArray => Rejected(WrongUse)
    case RejectedWith(e) => Rejected(Raised(e))
  }

  /** A reply to a batch gives the i-th promise the i-th value if the array has as many values as the
      batch has keys, and otherwise rejects them all; the cache hits of the batch follow their promises
      either way, no other promise changes, and the cache loses exactly the keys of a failed batch. */
  lemma ReplySettles<K, V, C, E>(cfg: Config<K, C>, st: State<K, V, C, E>, b: nat, reply: Reply<V, E>)
    requires Inv(cfg, st) && b < |st.batches| && st.batches[b].phase.InFlight?
    ensures var (r, n) := (Run(cfg, st, [Settle(b, reply)]), |st.batches[b].keys|);
            && |r.promises| == |st.promises|
            && (forall p :: 0 <= p < |st.promises| ==>
                  r.promises[p] == match st.promises[p].origin
                      case Enqueued(b', i) =>
                        if b' == b then st.promises[p].(outcome := ReplyOutcome(reply, n, i)) else st.promises[p]
                      case Hit(b', _, q) =>
                        if b' == b then st.promises[p].(outcome := Follows(q)) else st.promises[p]
                      case Primed => st.promises[p])
            && (st.cacheMap.Some? <==> r.cacheMap.Some?)
            && (st.cacheMap.Some? ==> forall c :: c in r.cacheMap.value <==>
                  c in st.cacheMap.value && !Forgets(cfg, st, Settle(b, reply), c))
  {
    InvPaired(cfg, st);
    var event := Event<K, V, E>.Settle(b, reply);
    StepKeepsInv(cfg, st, event);
    var (r, phase) := (Step(cfg, st, event), PhaseOf(reply, |st.batches[b].keys|));
    assert Run(cfg, st, [event]) == Run(cfg, r, [event][1..]) == r;
    EndBatchSettles(cfg, st, b, phase);
    hide SettleAll, ResolveCacheHits, Run;
    forall p | 0 <= p < |st.promises|
      ensures r.promises[p] == match st.promises[p].origin
                      case Enqueued(b', i) =>
                        if b' == b then st.promises[p].(outcome := ReplyOutcome(reply, |st.batches[b].keys|, i))
                        else st.promises[p]
                      case Hit(b', _, q) =>
                        if b' == b then st.promises[p].(outcome := Follows(q)) else st.promises[p]
                      case Primed => st.promises[p]
    {
      assert PromiseOk(cfg, st, p) && Settled(st, b, phase, r.promises, p);
    }
    if st.cacheMap.Some? {
      forall c ensures c in r.cacheMap.value <==> c in st.cacheMap.value && !Forgets(cfg, st, event, c) {
        RemovesIsForgets(cfg, st, event, c);
      }
    }
  }

  /** The dispatch of a batch with keys hands them over, or rejects all its promises if the batch
      function throws or returns no promise; a batch without keys only resolves its cache hits. */
  lemma DispatchSettles<K, V, C, E>(cfg: Config<K, C>, st: State<K, V, C, E>, b: nat, accepted: bool)
    requires Inv(cfg, st) && b < |st.batches| && st.batches[b].phase.Scheduled?
    ensures var (r, ends) := (Run(cfg, st, [Dispatch(b, accepted)]), st.batches[b].keys == [] || !accepted);
            && |r.promises| == |st.promises| && |r.batches| == |st.batches|
            && (r.batches[b].phase.InFlight? <==> !ends) && (r.batches[b].phase.Done() <==> ends)
            && r.batches[b].keys == st.batches[b].keys
            && (forall p :: 0 <= p < |st.promises| ==>
                  r.promises[p] == match st.promises[p].origin
                      case Enqueued(b', _) =>
                        if b' == b && ends then st.promises[p].(outcome := Rejected(WrongUse)) else st.promises[p]
                      case Hit(b', _, q) =>
                        if b' == b && ends then st.promises[p].(outcome := Follows(q)) else st.promises[p]
                      case Primed => st.promises[p])
            && (st.cacheMap.Some? <==> r.cacheMap.Some?)
            && (st.cacheMap.Some? ==> forall c :: c in r.cacheMap.value <==>
                  c in st.cacheMap.value && !Forgets(cfg, st, Dispatch(b, accepted), c))
  {
    InvPaired(cfg, st);
    var event := Event<K, V, E>.Dispatch(b, accepted);
    StepKeepsInv(cfg, st, event);
    var (r, ends) := (Step(cfg, st, event), st.batches[b].keys == [] || !accepted);
    assert Run(cfg, st, [event]) == Run(cfg, r, [event][1..]) == r;
    if ends {
      var phase := if st.batches[b].keys == [] then Phase<V, E>.Loaded([]) else Failed(WrongUse);
      assert BatchOk(cfg, st, b);
      EndBatchSettles(cfg, st, b, phase);
      forall p | 0 <= p < |st.promises|
        ensures r.promises[p] == match st.promises[p].origin
                        case Enqueued(b', _) =>
                          if b' == b then st.promises[p].(outcome := Rejected(WrongUse)) else st.promises[p]
                        case Hit(b', _, q) =>
                          if b' == b then st.promises[p].(outcome := Follows(q)) else st.promises[p]
                        case Primed => st.promises[p]
      {
        hide SettleAll, ResolveCacheHits, Run;
        assert PromiseOk(cfg, st, p) && Settled(st, b, phase, r.promises, p);
      }
    }
    hide SettleAll, ResolveCacheHits, Run, Inv;
    if st.cacheMap.Some? {
      forall c ensures c in r.cacheMap.value <==> c in st.cacheMap.value && !Forgets(cfg, st, event, c) {
        RemovesIsForgets(cfg, st, event, c);
      }
    }
  }
}
