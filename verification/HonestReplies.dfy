/** When fetchKeys of packages/seal/src/client.ts succeeds, said of the replies themselves. */
module HonestReplies {
  import opened Dem
  import opened Ibe
  import opened Interpolation
  import opened KeyFetch
  import opened Results
  import opened Seal

  /** A server that settles with a reply all of whose keys are points, and with a key that verifies for
      every identity whose key the cache did not hold for it at the start. */
  ghost predicate Serves<G1, G2, GT, Scalar>(q: Request<G1, G2, GT, Scalar>, start: KeyStore<G1>, e: Event<G1, G2>,
                                             id: ObjectId)
  {
    && e.Settled? && e.server.objectId == id && e.reply.Keys?
    && (forall i :: 0 <= i < |e.reply.keys| ==> e.reply.keys[i].1.Some?)
    && forall k :: 0 <= k < |q.fullIds| ==>
         || (q.fullIds[k], id) in start
         || exists i :: 0 <= i < |e.reply.keys| && Verifies(q.suite, e.server, e.reply.keys[i], q.fullIds[k])
  }

  /** Completing a server, said of its reply. */
  lemma ServesIsCompletes<G1, G2, GT, Scalar>(q: Request<G1, G2, GT, Scalar>, start: KeyStore<G1>, e: Event<G1, G2>)
    requires e.Settled?
    ensures Serves(q, start, e, e.server.objectId) <==> Completes(q, start, e.server, e.reply)
  {
    if e.reply.Keys? {
      var (after, parsed) := CacheKeys(q.suite, e.server, e.reply.keys, start);
      CachedByReply(q.suite, e.server, e.reply.keys, start);
      if parsed {
        assert Readable(e.reply.keys) == |e.reply.keys|;
        assert forall k :: 0 <= k < |q.fullIds| ==>
            CachesFor(q.suite, e.server, e.reply.keys, start, after, q.fullIds[k]);
      }
      hide CacheKeys, Verifies, Readable, Caches;
    }
  }

  /** An error is recorded exactly for a request that fails, or answers with a key that is no point,
      while the requests are not aborted. */
  lemma ErrorsAreFailures<G1, G2, GT, Scalar>(q: Request<G1, G2, GT, Scalar>, st: State<G1>, server: Server<G2>,
                                              reply: Reply<G1>)
    ensures Settle(q, st, server, reply).errors == st.errors +
            if st.abort == Running && (reply.Keys? ==> exists i :: 0 <= i < |reply.keys| && reply.keys[i].1.None?)
            then 1 else 0
  {
    if reply.Keys? {
      CachedByReply(q.suite, server, reply.keys, st.cachedKeys);
    }
    hide CacheKeys, CachesFor, HoldsAll, Weight, Without;
  }

  // ---------- Replies of whole runs ----------

  /** The servers a run completes are those that were complete and those whose replies serve. */
  lemma {:induction false} CompletedAre<G1, G2, GT, Scalar>(q: Request<G1, G2, GT, Scalar>, st: State<G1>,
                                                            start: KeyStore<G1>, events: seq<Event<G1, G2>>,
                                                            id: ObjectId)
    requires OnlyReplies(events)
    requires EnabledRun(q, st, events) && Distinct(st.pending)
    requires forall other :: other in st.pending ==> SameFor(st.cachedKeys, start, other)
    ensures id in Run(q, st, events).completed <==>
            id in st.completed || exists k :: 0 <= k < |events| && Serves(q, start, events[k], id)
    decreases |events|
  {
    hide Settle, Completes, SameFor, Distinct, Serves, Weight;
    if events != [] {
      assert Enabled(q, st, events[0]);
      SettleLocally(q, st, start, events[0].server, events[0].reply);
      ServesIsCompletes(q, start, events[0]);
      CompletedAre(q, Step(q, st, events[0]), start, events[1..], id);
      FirstOrRest(q, start, events, id);
    }
  }

  lemma FirstOrRest<G1, G2, GT, Scalar>(q: Request<G1, G2, GT, Scalar>, start: KeyStore<G1>,
                                        events: seq<Event<G1, G2>>, id: ObjectId)
    requires events != [] && events[0].Settled?
    ensures (exists k :: 0 <= k < |events| && Serves(q, start, events[k], id)) <==>
            (id == events[0].server.objectId && Serves(q, start, events[0], id))
                || exists k :: 0 <= k < |events[1..]| && Serves(q, start, events[1..][k], id)
  {
    assert Serves(q, start, events[0], id) ==> id == events[0].server.objectId;
    hide Serves;
    if k :| 0 < k < |events| && Serves(q, start, events[k], id) {
      assert Serves(q, start, events[1..][k - 1], id);
    }
    if k :| 0 <= k < |events[1..]| && Serves(q, start, events[1..][k], id) {
      assert events[k + 1] == events[1..][k];
    }
  }

  lemma {:induction false} CompletedWeighs<G1, G2, GT, Scalar>(q: Request<G1, G2, GT, Scalar>, st: State<G1>,
                                                              events: seq<Event<G1, G2>>)
    requires ValidRequest(q) && Counted(q, st) && EnabledRun(q, st, events)
    ensures Counted(q, Run(q, st, events))
    decreases |events|
  {
    hide Counted, Step, Enabled;
    if events != [] {
      assert Enabled(q, st, events[0]);
      StepKeepsCounted(q, st, events[0]);
      CompletedWeighs(q, Step(q, st, events[0]), events[1..]);
    }
  }

  /** The servers in the list are the client's that hold all keys at the start or serve. */
  ghost predicate AreServing<G1, G2, GT, Scalar>(q: Request<G1, G2, GT, Scalar>, start: KeyStore<G1>,
                                                 events: seq<Event<G1, G2>>, serving: seq<ObjectId>)
  {
    && Distinct(serving)
    && forall id :: id in serving <==>
         && id in ServerIds(q.servers)
         && ((forall k :: 0 <= k < |q.fullIds| ==> (q.fullIds[k], id) in start)
             || exists k :: 0 <= k < |events| && Serves(q, start, events[k], id))
  }

  /** The outcome of a call that no other call feeds, whatever the order of the replies: the threshold
      must be in range, and the servers that hold all keys at the start or serve must reach it. */
  lemma FetchSucceedsExactly<G1, G2, GT, Scalar>(q: Request<G1, G2, GT, Scalar>, cachedKeys: KeyStore<G1>,
                                                 events: seq<Event<G1, G2>>, serving: seq<ObjectId>)
    requires ValidConfigs(q.configs) && ServerIds(q.servers) == ConfigIds(q.configs)
    requires OnlyReplies(events) && EnabledRun(q, Initial(q, cachedKeys), events)
    requires AreServing(q, cachedKeys, events, serving)
    ensures FetchKeys(q, cachedKeys, events).0 ==
            if !(1 <= q.threshold <= WeightOf(q.configs, ServerIds(q.servers))) then Failure(InvalidThreshold)
            else if WeightOf(q.configs, serving) >= q.threshold then Success(())
            else Failure(NotCompleted)
  {
    hide WeightOf, Run, EnabledRun, OnlyReplies, Weight, TotalWeight;
    var start := Initial(q, cachedKeys);
    WeightOfConfigIds(q.configs);
    if 1 <= q.threshold <= TotalWeight(q.configs) {
      SelectPartitions(q.configs, ServerIds(q.servers), cachedKeys, q.fullIds);
      DistinctParts(start.completed, start.pending);
      if start.completedWeight >= q.threshold {
        SubsetWeighsLess(q.configs, start.completed, serving);
      } else {
        InitialInv(q, cachedKeys);
        CompletedWeighs(q, start, events);
        var end := Run(q, start, events);
        DistinctParts(end.completed, end.pending);
        ServingAreCompleted(q, cachedKeys, events, serving);
        SubsetWeighsLess(q.configs, end.completed, serving);
        SubsetWeighsLess(q.configs, serving, end.completed);
      }
    }
  }

  lemma ServingAreCompleted<G1, G2, GT, Scalar>(q: Request<G1, G2, GT, Scalar>, cachedKeys: KeyStore<G1>,
                                                events: seq<Event<G1, G2>>, serving: seq<ObjectId>)
    requires Distinct(ServerIds(q.servers))
    requires OnlyReplies(events) && EnabledRun(q, Initial(q, cachedKeys), events)
    requires AreServing(q, cachedKeys, events, serving)
    requires forall id :: id in Run(q, Initial(q, cachedKeys), events).completed ==> id in ServerIds(q.servers)
    ensures forall id :: id in serving <==> id in Run(q, Initial(q, cachedKeys), events).completed
  {
    hide Run, EnabledRun, Serves, SameFor;
    var start := Initial(q, cachedKeys);
    InitialIsReady(q, cachedKeys);
    SelectSelects(ServerIds(q.servers), cachedKeys, q.fullIds, true);
    forall id ensures id in serving <==> id in Run(q, start, events).completed {
      CompletedAre(q, start, cachedKeys, events, id);
      assert HoldsAll(cachedKeys, q.fullIds, id) <==>
          forall k :: 0 <= k < |q.fullIds| ==> (q.fullIds[k], id) in cachedKeys;
    }
  }

  // ---------- Honest servers are enough, whatever else happens ----------

  /** A settling server whose reply holds points only and a key that verifies for every identity. */
  ghost predicate AnswersAll<G1, G2, GT, Scalar>(q: Request<G1, G2, GT, Scalar>, e: Event<G1, G2>, id: ObjectId) {
    && e.Settled? && e.server.objectId == id && e.reply.Keys?
    && (forall i :: 0 <= i < |e.reply.keys| ==> e.reply.keys[i].1.Some?)
    && forall k :: 0 <= k < |q.fullIds| ==>
         exists i :: 0 <= i < |e.reply.keys| && Verifies(q.suite, e.server, e.reply.keys[i], q.fullIds[k])
  }

  lemma {:induction false} AnswersComplete<G1, G2, GT, Scalar>(q: Request<G1, G2, GT, Scalar>, st: State<G1>,
                                                              events: seq<Event<G1, G2>>, id: ObjectId)
    requires id in st.completed || exists k :: 0 <= k < |events| && AnswersAll(q, events[k], id)
    ensures id in Run(q, st, events).completed
    decreases |events|
  {
    hide AnswersAll;
    if events != [] {
      var next := Step(q, st, events[0]);
      if id in st.completed {
        StepCompletesMore(q, st, events[0], id);
      } else if AnswersAll(q, events[0], id) {
        AnswerCompletes(q, st, events[0], id);
      } else {
        var k :| 0 <= k < |events| && AnswersAll(q, events[k], id);
        assert events[1..][k - 1] == events[k];
      }
      AnswersComplete(q, next, events[1..], id);
    }
  }

  lemma StepCompletesMore<G1, G2, GT, Scalar>(q: Request<G1, G2, GT, Scalar>, st: State<G1>, e: Event<G1, G2>,
                                              id: ObjectId)
    requires id in st.completed
    ensures id in Step(q, st, e).completed
  {
    hide CacheKeys, HoldsAll, Weight, Without;
  }

  lemma AnswerCompletes<G1, G2, GT, Scalar>(q: Request<G1, G2, GT, Scalar>, st: State<G1>, e: Event<G1, G2>,
                                            id: ObjectId)
    requires AnswersAll(q, e, id)
    ensures id in Step(q, st, e).completed
  {
    hide Verifies, VerifyUserSecretKey, Weight, Without;
    assert Serves(q, st.cachedKeys, e, id);
    ServesIsCompletes(q, st.cachedKeys, e);
    hide CacheKeys, HoldsAll;
  }

  /** Distinct servers of at least the threshold's weight that hold all keys at the start or answer
      with verifying keys make the call succeed, whatever the other servers reply, whatever other calls
      cache, and in whatever order. */
  lemma HonestRepliesSucceed<G1, G2, GT, Scalar>(q: Request<G1, G2, GT, Scalar>, cachedKeys: KeyStore<G1>,
                                                 events: seq<Event<G1, G2>>, honest: seq<ObjectId>)
    requires ValidConfigs(q.configs) && ServerIds(q.servers) == ConfigIds(q.configs)
    requires EnabledRun(q, Initial(q, cachedKeys), events)
    requires Distinct(honest) && 1 <= q.threshold <= WeightOf(q.configs, honest)
    requires forall id :: id in honest ==>
        && id in ServerIds(q.servers)
        && ((forall k :: 0 <= k < |q.fullIds| ==> (q.fullIds[k], id) in cachedKeys)
            || exists k :: 0 <= k < |events| && AnswersAll(q, events[k], id))
    ensures FetchKeys(q, cachedKeys, events).0 == Success(())
  {
    hide WeightOf, Run, EnabledRun, Weight, TotalWeight, AnswersAll;
    var start := Initial(q, cachedKeys);
    WeightOfConfigIds(q.configs);
    SubsetWeighsLess(q.configs, honest, ServerIds(q.servers));
    SelectPartitions(q.configs, ServerIds(q.servers), cachedKeys, q.fullIds);
    if start.completedWeight < q.threshold {
      InitialInv(q, cachedKeys);
      CompletedWeighs(q, start, events);
      var end := Run(q, start, events);
      DistinctParts(end.completed, end.pending);
      forall id | id in honest ensures id in end.completed {
        AnswersComplete(q, start, events, id);
      }
      SubsetWeighsLess(q.configs, honest, end.completed);
    }
  }

  /** An honest server's key, the hash of the identity multiplied by the server's secret, verifies
      under the public key of that secret, so a reply that holds it counts. */
  lemma HonestKeyVerifies<G1(!new), G2(!new), GT, Scalar(!new)>(s: Suite<G1, G2, GT, Scalar>, server: Server<G2>,
                                                               secret: Scalar, fullId: string)
    requires Lawful(s) && server.pk == s.multiplyG2(s.generator, secret)
    ensures var key := s.multiplyG1(s.hashToCurve(Ascii("SUI-SEAL-IBE-BLS12381-00") + s.fromHex(fullId)), secret);
            Verifies(s, server, (fullId, Some(key)), fullId)
  {
    var h := s.hashToCurve(Ascii("SUI-SEAL-IBE-BLS12381-00") + s.fromHex(fullId));
    assert s.pairing(s.multiplyG1(h, secret), s.generator) == s.powerGT(s.pairing(h, s.generator), secret);
    assert s.pairing(h, s.multiplyG2(s.generator, secret)) == s.powerGT(s.pairing(h, s.generator), secret);
  }
}
