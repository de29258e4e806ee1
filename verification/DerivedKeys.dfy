/** getDerivedKeys of packages/seal/src/client.ts: the cached keys of the first servers whose weight
    reaches the threshold. */
module DerivedKeys {
  import opened Ibe
  import opened Interpolation
  import opened KeyFetch
  import opened Results
  import opened Seal
  import opened SealClient

  /** The loop over the key servers, with the weight that it has added up so far. */
  function Derived<G1>(configs: seq<KeyServerConfig>, ids: seq<ObjectId>, cachedKeys: KeyStore<G1>, fullId: string,
                       threshold: int, weight: int): seq<(ObjectId, G1)>
  {
    if ids == [] then []
    else if (fullId, ids[0]) !in cachedKeys then Derived(configs, ids[1..], cachedKeys, fullId, threshold, weight)
    else
      var added := weight + Weight(configs, ids[0]);
      var first := (ids[0], cachedKeys[(fullId, ids[0])]);
      if added >= threshold then [first]
      else [first] + Derived(configs, ids[1..], cachedKeys, fullId, threshold, added)
  }

  method DeriveKeys<G1>(configs: seq<KeyServerConfig>, ids: seq<ObjectId>, cachedKeys: KeyStore<G1>, fullId: string,
                        threshold: int)
    returns (derivedKeys: seq<(ObjectId, G1)>)
    ensures derivedKeys == Derived(configs, ids, cachedKeys, fullId, threshold, 0)
  {
    derivedKeys := [];
    var weight := 0;
    for i := 0 to |ids|
      invariant Derived(configs, ids, cachedKeys, fullId, threshold, 0)
             == derivedKeys + Derived(configs, ids[i..], cachedKeys, fullId, threshold, weight)
    {
      hide Weight;
      var objectId := ids[i];
      assert ids[i..][0] == objectId && ids[i..][1..] == ids[i + 1..];
      if (fullId, objectId) in cachedKeys {
        derivedKeys := derivedKeys + [(objectId, cachedKeys[(fullId, objectId)])];
        weight := weight + Weight(configs, objectId);
        if weight >= threshold {
          return;
        }
      }
    }
  }

  /** The whole call, for one id and one interleaving of the replies that fetchKeys waits for. */
  function GetDerivedKeys<G1, G2, GT(==), Scalar>(q: Request<G1, G2, GT, Scalar>, cachedKeys: KeyStore<G1>,
                                                  events: seq<Event<G1, G2>>)
    : Result<seq<(ObjectId, G1)>, FetchError>
    requires |q.fullIds| == 1
  {
    if q.threshold > TotalWeight(q.configs) then Failure(InvalidThreshold)
    else
      var (outcome, end) := FetchKeys(q, cachedKeys, events);
      if outcome.Failure? then Failure(outcome.error)
      else Success(Derived(q.configs, ServerIds(q.servers), end.cachedKeys, q.fullIds[0], q.threshold, 0))
  }

  // ---------- The shortest prefix of the servers with cached keys ----------

  function Shortest(configs: seq<KeyServerConfig>, held: seq<ObjectId>, threshold: int, weight: int): (r: seq<ObjectId>)
    ensures r <= held
  {
    if held == [] then []
    else
      var added := weight + Weight(configs, held[0]);
      if added >= threshold then [held[0]] else [held[0]] + Shortest(configs, held[1..], threshold, added)
  }

  function Held<G1>(ids: seq<ObjectId>, cachedKeys: KeyStore<G1>, fullId: string): seq<ObjectId> {
    Select(ids, cachedKeys, [fullId], true)
  }

  lemma HoldsOne<G1>(cachedKeys: KeyStore<G1>, fullId: string, id: ObjectId)
    ensures HoldsAll(cachedKeys, [fullId], id) <==> (fullId, id) in cachedKeys
  {
    var fullIds := [fullId];
    assert fullIds[0] == fullId;
  }

  lemma {:induction false} DerivedIsShortest<G1>(configs: seq<KeyServerConfig>, ids: seq<ObjectId>,
                                                 cachedKeys: KeyStore<G1>, fullId: string, threshold: int, weight: int)
    ensures var keys := Derived(configs, ids, cachedKeys, fullId, threshold, weight);
            var servers := Shortest(configs, Held(ids, cachedKeys, fullId), threshold, weight);
            && |keys| == |servers|
            && forall i :: 0 <= i < |keys| ==>
                 (fullId, servers[i]) in cachedKeys && keys[i] == (servers[i], cachedKeys[(fullId, servers[i])])
    decreases |ids|
  {
    hide Weight;
    if ids != [] {
      HoldsOne(cachedKeys, fullId, ids[0]);
      hide HoldsAll;
      var held := Held(ids[1..], cachedKeys, fullId);
      if (fullId, ids[0]) in cachedKeys {
        assert ([ids[0]] + held)[1..] == held;
        DerivedIsShortest(configs, ids[1..], cachedKeys, fullId, threshold, weight + Weight(configs, ids[0]));
      } else {
        DerivedIsShortest(configs, ids[1..], cachedKeys, fullId, threshold, weight);
      }
    }
  }

  /** It reaches the threshold, and without its last server it would not. */
  lemma {:induction false} ShortestReaches(configs: seq<KeyServerConfig>, held: seq<ObjectId>, threshold: int,
                                           weight: int)
    requires weight < threshold <= weight + WeightOf(configs, held)
    ensures var n := |Shortest(configs, held, threshold, weight)|;
            && 0 < n <= |held|
            && weight + WeightOf(configs, held[..n]) >= threshold
            && weight + WeightOf(configs, held[..n - 1]) < threshold
    decreases |held|
  {
    hide Weight;
    var added := weight + Weight(configs, held[0]);
    if added >= threshold {
      assert held[..1] == [held[0]] && held[..1][1..] == [] && held[..0] == [];
    } else {
      ShortestReaches(configs, held[1..], threshold, added);
      var n := |Shortest(configs, held, threshold, weight)|;
      assert held[..n][1..] == held[1..][..n - 1] && held[..n - 1][1..] == held[1..][..n - 2];
    }
  }

  lemma {:induction false} PrefixWeighsLess(configs: seq<KeyServerConfig>, held: seq<ObjectId>, m: nat, n: nat)
    requires m <= n <= |held|
    ensures WeightOf(configs, held[..m]) <= WeightOf(configs, held[..n])
  {
    assert held[..n] == held[..m] + held[m..n];
    WeightOfConcat(configs, held[..m], held[m..n]);
  }

  /** What a call that succeeds returns: the verified keys of distinct servers whose weight reaches the
      threshold, and all of them are needed for that. */
  lemma DerivedKeysReachThreshold<G1, G2, GT, Scalar>(q: Request<G1, G2, GT, Scalar>, cachedKeys: KeyStore<G1>,
                                                     events: seq<Event<G1, G2>>)
    returns (servers: seq<ObjectId>)
    requires ValidConfigs(q.configs) && ServerIds(q.servers) == ConfigIds(q.configs) && |q.fullIds| == 1
    requires CacheVerified(q.suite, q.servers, cachedKeys) && EnabledRun(q, Initial(q, cachedKeys), events)
    requires GetDerivedKeys(q, cachedKeys, events).Success?
    ensures var keys := GetDerivedKeys(q, cachedKeys, events).value;
            && |keys| == |servers| > 0 && Distinct(servers)
            && (forall i :: 0 <= i < |keys| ==> keys[i].0 == servers[i] && servers[i] in ServerIds(q.servers))
            && (forall i, k :: 0 <= i < |keys| && 0 <= k < |q.servers| && q.servers[k].objectId == servers[i] ==>
                  VerifyUserSecretKey(q.suite, keys[i].1, q.fullIds[0], q.servers[k].pk))
            && WeightOf(q.configs, servers) >= q.threshold
            && WeightOf(q.configs, servers[..|servers| - 1]) < q.threshold
  {
    NormalReturnMeansThreshold(q, cachedKeys, events);
    var end := FetchKeys(q, cachedKeys, events).1;
    assert q.threshold >= 1 && q.fullIds == [q.fullIds[0]];
    assert GetDerivedKeys(q, cachedKeys, events).value
        == Derived(q.configs, ServerIds(q.servers), end.cachedKeys, q.fullIds[0], q.threshold, 0);
    hide *;
    servers := ShortestHeld(q, end.cachedKeys, end.completed);
  }

  lemma ShortestHeld<G1, G2, GT, Scalar>(q: Request<G1, G2, GT, Scalar>, cachedKeys: KeyStore<G1>,
                                         completed: seq<ObjectId>)
    returns (servers: seq<ObjectId>)
    requires ValidConfigs(q.configs) && ServerIds(q.servers) == ConfigIds(q.configs)
    requires |q.fullIds| == 1 && q.fullIds == [q.fullIds[0]] && q.threshold >= 1
    requires ThresholdCached(q, cachedKeys, completed) && CacheVerified(q.suite, q.servers, cachedKeys)
    ensures var keys := Derived(q.configs, ServerIds(q.servers), cachedKeys, q.fullIds[0], q.threshold, 0);
            && |keys| == |servers| > 0 && Distinct(servers)
            && (forall i :: 0 <= i < |keys| ==> keys[i].0 == servers[i] && servers[i] in ServerIds(q.servers))
            && (forall i, k :: 0 <= i < |keys| && 0 <= k < |q.servers| && q.servers[k].objectId == servers[i] ==>
                  VerifyUserSecretKey(q.suite, keys[i].1, q.fullIds[0], q.servers[k].pk))
            && WeightOf(q.configs, servers) >= q.threshold
            && WeightOf(q.configs, servers[..|servers| - 1]) < q.threshold
  {
    var ids, fullId := ServerIds(q.servers), q.fullIds[0];
    hide VerifyUserSecretKey, WeightOf, Weight, HoldsAll, Derived, Shortest;
    var held := Held(ids, cachedKeys, fullId);
    servers := Shortest(q.configs, held, q.threshold, 0);
    SelectSelects(ids, cachedKeys, [fullId], true);
    SubsetWeighsLess(q.configs, completed, held);
    ShortestReaches(q.configs, held, q.threshold, 0);
    DerivedIsShortest(q.configs, ids, cachedKeys, fullId, q.threshold, 0);
    assert servers == held[..|servers|];
    assert servers[..|servers| - 1] == held[..|servers| - 1];
  }

  /** The cached keys of all servers of a list, in its order. */
  function Cached<G1>(ids: seq<ObjectId>, cachedKeys: KeyStore<G1>, fullId: string): seq<(ObjectId, G1)> {
    if ids == [] then []
    else
      (if (fullId, ids[0]) in cachedKeys then [(ids[0], cachedKeys[(fullId, ids[0])])] else [])
      + Cached(ids[1..], cachedKeys, fullId)
  }

  /** The derived keys are all the cached keys of the first n servers of the client's list, in its order:
      no server is passed over. The call stops early only with a key of the n-th server that makes the
      weights reach the threshold. */
  lemma {:induction false} DerivedAreFirst<G1>(configs: seq<KeyServerConfig>, ids: seq<ObjectId>,
                                               cachedKeys: KeyStore<G1>, fullId: string, threshold: int, weight: int)
    returns (n: nat)
    ensures n <= |ids|
    ensures Derived(configs, ids, cachedKeys, fullId, threshold, weight) == Cached(ids[..n], cachedKeys, fullId)
    ensures n < |ids| ==> n > 0 && (fullId, ids[n - 1]) in cachedKeys
    decreases |ids|
  {
    hide Weight;
    if ids == [] {
      n := 0;
    } else if (fullId, ids[0]) in cachedKeys && weight + Weight(configs, ids[0]) >= threshold {
      n := 1;
      assert ids[..1][1..] == [];
    } else {
      var added := if (fullId, ids[0]) in cachedKeys then weight + Weight(configs, ids[0]) else weight;
      var m := DerivedAreFirst(configs, ids[1..], cachedKeys, fullId, threshold, added);
      n := m + 1;
      assert ids[..n][1..] == ids[1..][..m];
    }
  }

  // ---------- When exactly as many keys as the threshold are returned ----------

  /** No server without weight comes before one with weight. */
  ghost predicate ZerosLast(configs: seq<KeyServerConfig>, ids: seq<ObjectId>) {
    forall i, j :: 0 <= i < j < |ids| && Weight(configs, ids[j]) > 0 ==> Weight(configs, ids[i]) > 0
  }

  ghost predicate UnitWeights(configs: seq<KeyServerConfig>, ids: seq<ObjectId>) {
    forall id :: id in ids ==> Weight(configs, id) <= 1
  }

  lemma {:induction false} SelectKeepsZerosLast<G1>(configs: seq<KeyServerConfig>, ids: seq<ObjectId>,
                                                    cachedKeys: KeyStore<G1>, fullId: string)
    requires ZerosLast(configs, ids) && Distinct(ids)
    ensures ZerosLast(configs, Held(ids, cachedKeys, fullId))
    decreases |ids|
  {
    hide Weight, HoldsAll;
    if ids != [] {
      assert ZerosLast(configs, ids[1..]);
      SelectKeepsZerosLast(configs, ids[1..], cachedKeys, fullId);
      var rest := Held(ids[1..], cachedKeys, fullId);
      SelectSelects(ids[1..], cachedKeys, [fullId], true);
      forall j | 0 <= j < |rest| && Weight(configs, rest[j]) > 0 ensures Weight(configs, ids[0]) > 0 {
        assert rest[j] in ids[1..];
        var k :| 0 <= k < |ids[1..]| && ids[1..][k] == rest[j];
        assert ids[k + 1] == rest[j];
      }
    }
  }

  lemma {:induction false} UnitsWeighTheirNumber(configs: seq<KeyServerConfig>, ids: seq<ObjectId>)
    requires forall i :: 0 <= i < |ids| ==> Weight(configs, ids[i]) == 1
    ensures WeightOf(configs, ids) == |ids|
  {
    hide Weight;
    if ids != [] {
      UnitsWeighTheirNumber(configs, ids[1..]);
    }
  }

  lemma {:induction false} PositiveWeighTheirNumber(configs: seq<KeyServerConfig>, ids: seq<ObjectId>)
    requires forall i :: 0 <= i < |ids| ==> Weight(configs, ids[i]) >= 1
    ensures WeightOf(configs, ids) >= |ids|
  {
    hide Weight;
    if ids != [] {
      PositiveWeighTheirNumber(configs, ids[1..]);
    }
  }

  lemma LastWeight(configs: seq<KeyServerConfig>, held: seq<ObjectId>, n: nat)
    requires 0 < n <= |held|
    ensures WeightOf(configs, held[..n]) == WeightOf(configs, held[..n - 1]) + Weight(configs, held[n - 1])
  {
    hide WeightOf, Weight;
    assert held[..n] == held[..n - 1] + [held[n - 1]];
    WeightOfAppend(configs, held[..n - 1], held[n - 1]);
  }

  lemma ExactNumber(configs: seq<KeyServerConfig>, servers: seq<ObjectId>, threshold: int)
    requires servers != [] && forall i :: 0 <= i < |servers| ==> Weight(configs, servers[i]) > 0
    requires WeightOf(configs, servers) >= threshold > WeightOf(configs, servers[..|servers| - 1])
    requires threshold == 1 || forall i :: 0 <= i < |servers| ==> Weight(configs, servers[i]) <= 1
    requires threshold >= 1
    ensures |servers| == threshold
  {
    hide Weight, WeightOf;
    var init := servers[..|servers| - 1];
    PositiveWeighTheirNumber(configs, init);
    if threshold > 1 {
      UnitsWeighTheirNumber(configs, servers);
      UnitsWeighTheirNumber(configs, init);
    }
  }

  lemma AllPositive(configs: seq<KeyServerConfig>, held: seq<ObjectId>, n: nat)
    requires 0 < n <= |held| && ZerosLast(configs, held) && Weight(configs, held[n - 1]) > 0
    ensures forall i :: 0 <= i < n ==> Weight(configs, held[..n][i]) > 0
  {
    hide Weight;
  }

  /** Unless a server without weight comes first or a weight counts for several, the shortest prefix has
      as many servers as the threshold. */
  lemma ShortestIsExact(configs: seq<KeyServerConfig>, held: seq<ObjectId>, threshold: int)
    requires 1 <= threshold <= WeightOf(configs, held) && ZerosLast(configs, held)
    requires threshold == 1 || UnitWeights(configs, held)
    ensures |Shortest(configs, held, threshold, 0)| == threshold
  {
    hide Weight, WeightOf, ZerosLast;
    ShortestReaches(configs, held, threshold, 0);
    var n := |Shortest(configs, held, threshold, 0)|;
    LastWeight(configs, held, n);
    AllPositive(configs, held, n);
    assert held[..n][..n - 1] == held[..n - 1];
    assert threshold != 1 ==> forall i :: 0 <= i < n ==> held[..n][i] in held;
    ExactNumber(configs, held[..n], threshold);
  }

  // ---------- When another number of keys is returned ----------

  lemma SameMembersWeighTheSame(configs: seq<KeyServerConfig>, a: seq<ObjectId>, b: seq<ObjectId>)
    requires Distinct(a) && Distinct(b) && forall id :: id in a <==> id in b
    ensures WeightOf(configs, a) == WeightOf(configs, b) && |a| == |b|
  {
    SubsetWeighsLess(configs, a, b);
    SubsetWeighsLess(configs, b, a);
  }

  /** The last server with a cached key has none behind it. */
  lemma {:induction false} NoneBehindLast<G1>(ids: seq<ObjectId>, cachedKeys: KeyStore<G1>, fullId: string, i: nat,
                                              j: nat)
    requires Distinct(ids) && i < j < |ids| && (fullId, ids[j]) in cachedKeys
    ensures var held := Held(ids, cachedKeys, fullId);
            held != [] && held[|held| - 1] != ids[i]
    decreases i
  {
    SelectSelects(ids, cachedKeys, [fullId], true);
    HoldsOne(cachedKeys, fullId, ids[0]);
    HoldsOne(cachedKeys, fullId, ids[j]);
    hide HoldsAll;
    var rest := Held(ids[1..], cachedKeys, fullId);
    SelectSelects(ids[1..], cachedKeys, [fullId], true);
    assert ids[1..][j - 1] == ids[j];
    assert ids[j] in rest;
    if i == 0 {
      assert ids[0] !in ids[1..];
      assert rest[|rest| - 1] in rest;
    } else {
      NoneBehindLast(ids[1..], cachedKeys, fullId, i - 1, j - 1);
    }
  }

  lemma AllAreNeeded(configs: seq<KeyServerConfig>, held: seq<ObjectId>, threshold: int)
    requires held != [] && threshold >= 1
    requires WeightOf(configs, held) >= threshold > WeightOf(configs, held[..|held| - 1])
    ensures |Shortest(configs, held, threshold, 0)| == |held|
  {
    ShortestReaches(configs, held, threshold, 0);
    var n := |Shortest(configs, held, threshold, 0)|;
    if n < |held| {
      PrefixWeighsLess(configs, held, n, |held| - 1);
    }
  }

  /** Verified keys of some of the servers. */
  lemma CacheOf<G1, G2, GT, Scalar>(q: Request<G1, G2, GT, Scalar>, fullId: string, userKeys: map<ObjectId, G1>,
                                    members: seq<ObjectId>)
    returns (cachedKeys: KeyStore<G1>)
    requires ValidConfigs(q.configs) && ServerIds(q.servers) == ConfigIds(q.configs) && q.fullIds == [fullId]
    requires UserKeys(q.suite, q.servers, fullId, userKeys)
    requires Distinct(members) && forall id :: id in members ==> id in ServerIds(q.servers)
    ensures CacheVerified(q.suite, q.servers, cachedKeys)
    ensures forall id :: (fullId, id) in cachedKeys <==> id in members
    ensures var held := Held(ServerIds(q.servers), cachedKeys, fullId);
            && Distinct(held) && (forall id :: id in held <==> id in members)
            && WeightOf(q.configs, held) == WeightOf(q.configs, members) && |held| == |members|
  {
    hide VerifyUserSecretKey, WeightOf;
    var ids := ServerIds(q.servers);
    forall id | id in members ensures id in userKeys {
      var k :| 0 <= k < |ids| && ids[k] == id;
    }
    cachedKeys := map id | id in members :: (fullId, id) := userKeys[id];
    SelectSelects(ids, cachedKeys, [fullId], true);
    forall id | id in ids ensures HoldsAll(cachedKeys, [fullId], id) <==> id in members {
      HoldsOne(cachedKeys, fullId, id);
    }
    hide HoldsAll;
    SameMembersWeighTheSame(q.configs, Held(ids, cachedKeys, fullId), members);
  }

  /** With these keys cached the call succeeds at once. */
  lemma DerivedAtOnce<G1, G2, GT, Scalar>(q: Request<G1, G2, GT, Scalar>, cachedKeys: KeyStore<G1>, fullId: string)
    requires q.fullIds == [fullId] && 1 <= q.threshold <= TotalWeight(q.configs)
    requires WeightOf(q.configs, Held(ServerIds(q.servers), cachedKeys, fullId)) >= q.threshold
    ensures GetDerivedKeys(q, cachedKeys, []).Success?
    ensures |GetDerivedKeys(q, cachedKeys, []).value|
         == |Shortest(q.configs, Held(ServerIds(q.servers), cachedKeys, fullId), q.threshold, 0)|
  {
    hide WeightOf, HoldsAll, Derived, Shortest;
    DerivedIsShortest(q.configs, ServerIds(q.servers), cachedKeys, fullId, q.threshold, 0);
  }

  lemma Heavy(configs: seq<KeyServerConfig>, members: seq<ObjectId>, j: nat)
    requires j < |members| && Weight(configs, members[j]) >= 2
    requires forall i :: 0 <= i < |members| ==> Weight(configs, members[i]) >= 1
    ensures WeightOf(configs, members) > |members|
  {
    hide Weight, WeightOf;
    PositiveWeighTheirNumber(configs, members[..j]);
    PositiveWeighTheirNumber(configs, members[j + 1..]);
    assert members == members[..j] + [members[j]] + members[j + 1..];
    WeightOfConcat(configs, members[..j] + [members[j]], members[j + 1..]);
    WeightOfAppend(configs, members[..j], members[j]);
  }

  /** With a heavy server, fewer servers than the threshold can reach it. */
  lemma FewReach(configs: seq<KeyServerConfig>, ids: seq<ObjectId>, threshold: int, heavy: ObjectId)
    returns (members: seq<ObjectId>)
    requires Distinct(ids) && 2 <= threshold <= WeightOf(configs, ids)
    requires heavy in ids && Weight(configs, heavy) >= 2
    ensures Distinct(members) && (forall id :: id in members ==> id in ids)
    ensures |members| < threshold <= WeightOf(configs, members)
  {
    hide Weight, WeightOf;
    PositiveKeepsWeight(configs, ids);
    var p := Positive(configs, ids);
    var j :| 0 <= j < |p| && p[j] == heavy;
    if |p| < threshold {
      members := p;
    } else if j < threshold - 1 {
      members := p[..threshold - 1];
      Heavy(configs, members, j);
    } else {
      members := p[..threshold - 2] + [p[j]];
      Heavy(configs, members, threshold - 2);
    }
  }

  /** Servers of which none can be left out. */
  ghost predicate JustEnough(configs: seq<KeyServerConfig>, members: seq<ObjectId>, threshold: int) {
    && WeightOf(configs, members) >= threshold
    && forall id :: id in members ==>
         Weight(configs, id) > 0 && WeightOf(configs, members) - Weight(configs, id) < threshold
  }

  lemma UnitsReach(configs: seq<KeyServerConfig>, p: seq<ObjectId>, threshold: nat, j: nat)
    returns (members: seq<ObjectId>)
    requires Distinct(p) && j < |p| && 1 < threshold <= |p|
    requires forall i :: 0 <= i < |p| ==> Weight(configs, p[i]) == 1
    ensures Distinct(members) && |members| == threshold && p[j] in members
    ensures (forall id :: id in members ==> id in p) && JustEnough(configs, members, threshold)
  {
    hide Weight, WeightOf;
    members := if j < threshold then p[..threshold] else p[..threshold - 1] + [p[j]];
    assert members[if j < threshold then j else threshold - 1] == p[j];
    UnitsWeighTheirNumber(configs, members);
  }

  lemma OneWeight(configs: seq<KeyServerConfig>, id: ObjectId)
    ensures WeightOf(configs, [id]) == Weight(configs, id)
  {
    hide Weight;
    assert [id][1..] == [];
  }

  /** Servers of just the threshold's weight, one of them given. */
  lemma JustReach(configs: seq<KeyServerConfig>, ids: seq<ObjectId>, threshold: int, member: ObjectId)
    returns (members: seq<ObjectId>)
    requires Distinct(ids) && 1 <= threshold <= WeightOf(configs, ids)
    requires member in ids && Weight(configs, member) > 0 && (threshold == 1 || UnitWeights(configs, ids))
    ensures Distinct(members) && |members| == threshold && member in members
    ensures (forall id :: id in members ==> id in ids) && JustEnough(configs, members, threshold)
  {
    hide Weight;
    if threshold == 1 {
      members := [member];
      OneWeight(configs, member);
    } else {
      hide WeightOf, JustEnough;
      PositiveKeepsWeight(configs, ids);
      var p := Positive(configs, ids);
      var j :| 0 <= j < |p| && p[j] == member;
      forall i | 0 <= i < |p| ensures Weight(configs, p[i]) == 1 {
        assert p[i] in p;
      }
      UnitsWeighTheirNumber(configs, p);
      members := UnitsReach(configs, p, threshold, j);
    }
  }

  /** One server without weight beside those that are just enough is collected with them, unless it is
      the last. */
  lemma OneMoreCollected(configs: seq<KeyServerConfig>, held: seq<ObjectId>, some: seq<ObjectId>, zero: ObjectId,
                         threshold: int)
    requires Distinct(held) && Distinct(some) && zero !in some && threshold >= 1
    requires (forall id :: id in held <==> id == zero || id in some) && held != [] && held[|held| - 1] != zero
    requires WeightOf(configs, held) == WeightOf(configs, some) && JustEnough(configs, some, threshold)
    ensures |Shortest(configs, held, threshold, 0)| == |held|
  {
    hide Weight, WeightOf, Shortest;
    var last := held[|held| - 1];
    assert last in held && last in some;
    LastWeight(configs, held, |held|);
    assert held[..|held|] == held;
    AllAreNeeded(configs, held, threshold);
  }

  /** Every call that succeeds returns exactly as many keys as the threshold. */
  ghost predicate AlwaysExact<G1(!new), G2(!new), GT, Scalar>(q: Request<G1, G2, GT, Scalar>)
    requires |q.fullIds| == 1
  {
    forall cachedKeys: KeyStore<G1>, events: seq<Event<G1, G2>> ::
      CacheVerified(q.suite, q.servers, cachedKeys) && EnabledRun(q, Initial(q, cachedKeys), events) ==>
        var keys := GetDerivedKeys(q, cachedKeys, events);
        keys.Success? ==> |keys.value| == q.threshold
  }

  lemma ExactCall<G1, G2, GT, Scalar>(q: Request<G1, G2, GT, Scalar>, cachedKeys: KeyStore<G1>,
                                      events: seq<Event<G1, G2>>)
    requires ValidConfigs(q.configs) && ServerIds(q.servers) == ConfigIds(q.configs) && |q.fullIds| == 1
    requires CacheVerified(q.suite, q.servers, cachedKeys) && EnabledRun(q, Initial(q, cachedKeys), events)
    requires ZerosLast(q.configs, ConfigIds(q.configs))
    requires q.threshold == 1 || UnitWeights(q.configs, ConfigIds(q.configs))
    requires GetDerivedKeys(q, cachedKeys, events).Success?
    ensures |GetDerivedKeys(q, cachedKeys, events).value| == q.threshold
  {
    NormalReturnMeansThreshold(q, cachedKeys, events);
    var ids, fullId := ServerIds(q.servers), q.fullIds[0];
    var end := FetchKeys(q, cachedKeys, events).1;
    assert q.fullIds == [fullId] && q.threshold >= 1;
    hide FetchKeys, EnabledRun, VerifyUserSecretKey, WeightOf, Weight, HoldsAll, ZerosLast;
    var held := Held(ids, end.cachedKeys, fullId);
    SelectSelects(ids, end.cachedKeys, [fullId], true);
    SubsetWeighsLess(q.configs, end.completed, held);
    SelectKeepsZerosLast(q.configs, ids, end.cachedKeys, fullId);
    ShortestIsExact(q.configs, held, q.threshold);
    DerivedIsShortest(q.configs, ids, end.cachedKeys, fullId, q.threshold, 0);
  }

  /** The source's comment promises exactly threshold keys. For a threshold in range and servers that
      answer with verifying keys, that holds of every call if and only if no server without weight is
      configured before one with weight and, for thresholds above one, no weight is above one. */
  lemma ExactlyThresholdKeys<G1(!new), G2(!new), GT, Scalar>(q: Request<G1, G2, GT, Scalar>, fullId: string,
                                                            userKeys: map<ObjectId, G1>)
    requires ValidConfigs(q.configs) && ServerIds(q.servers) == ConfigIds(q.configs) && q.fullIds == [fullId]
    requires 1 <= q.threshold <= TotalWeight(q.configs) && UserKeys(q.suite, q.servers, fullId, userKeys)
    ensures AlwaysExact(q) <==>
            && ZerosLast(q.configs, ConfigIds(q.configs))
            && (q.threshold == 1 || UnitWeights(q.configs, ConfigIds(q.configs)))
  {
    var ids := ConfigIds(q.configs);
    WeightOfConfigIds(q.configs);
    hide GetDerivedKeys, EnabledRun, CacheVerified, UserKeys, Weight, WeightOf, ConfigIds, ServerIds, ValidConfigs;
    if q.threshold > 1 && !UnitWeights(q.configs, ids) {
      TooFewKeys(q, fullId, userKeys);
    } else if !ZerosLast(q.configs, ids) {
      OneKeyTooMany(q, fullId, userKeys);
    } else {
      forall cachedKeys: KeyStore<G1>, events: seq<Event<G1, G2>> |
        && CacheVerified(q.suite, q.servers, cachedKeys) && EnabledRun(q, Initial(q, cachedKeys), events)
        && GetDerivedKeys(q, cachedKeys, events).Success?
        ensures |GetDerivedKeys(q, cachedKeys, events).value| == q.threshold
      {
        ExactCall(q, cachedKeys, events);
      }
    }
  }

  lemma TooFewKeys<G1(!new), G2(!new), GT, Scalar>(q: Request<G1, G2, GT, Scalar>, fullId: string,
                                                  userKeys: map<ObjectId, G1>)
    requires ValidConfigs(q.configs) && ServerIds(q.servers) == ConfigIds(q.configs) && q.fullIds == [fullId]
    requires 1 < q.threshold <= TotalWeight(q.configs) && UserKeys(q.suite, q.servers, fullId, userKeys)
    requires !UnitWeights(q.configs, ConfigIds(q.configs))
    ensures !AlwaysExact(q)
  {
    var ids := ConfigIds(q.configs);
    WeightOfConfigIds(q.configs);
    hide GetDerivedKeys, CacheVerified, UserKeys, Weight, WeightOf, ConfigIds, ServerIds, Shortest, Held;
    var heavy :| heavy in ids && Weight(q.configs, heavy) > 1;
    var members := FewReach(q.configs, ids, q.threshold, heavy);
    var cachedKeys := CacheOf(q, fullId, userKeys, members);
    DerivedAtOnce(q, cachedKeys, fullId);
    assert EnabledRun(q, Initial(q, cachedKeys), []);
  }

  lemma OneKeyTooMany<G1(!new), G2(!new), GT, Scalar>(q: Request<G1, G2, GT, Scalar>, fullId: string,
                                                     userKeys: map<ObjectId, G1>)
    requires ValidConfigs(q.configs) && ServerIds(q.servers) == ConfigIds(q.configs) && q.fullIds == [fullId]
    requires 1 <= q.threshold <= TotalWeight(q.configs) && UserKeys(q.suite, q.servers, fullId, userKeys)
    requires q.threshold == 1 || UnitWeights(q.configs, ConfigIds(q.configs))
    requires !ZerosLast(q.configs, ConfigIds(q.configs))
    ensures !AlwaysExact(q)
  {
    var ids := ConfigIds(q.configs);
    WeightOfConfigIds(q.configs);
    hide GetDerivedKeys, CacheVerified, UserKeys, Weight, ConfigIds, ServerIds, Shortest, Held;
    var i, j :| 0 <= i < j < |ids| && Weight(q.configs, ids[j]) > 0 && Weight(q.configs, ids[i]) == 0;
    var some := JustReach(q.configs, ids, q.threshold, ids[j]);
    var members := [ids[i]] + some;
    ZeroBeside(q.configs, some, ids[i], q.threshold);
    hide WeightOf, JustEnough, UnitWeights, ZerosLast;
    var cachedKeys := CacheOf(q, fullId, userKeys, members);
    var held := Held(ids, cachedKeys, fullId);
    NoneBehindLast(ids, cachedKeys, fullId, i, j);
    OneMoreCollected(q.configs, held, some, ids[i], q.threshold);
    DerivedAtOnce(q, cachedKeys, fullId);
    assert EnabledRun(q, Initial(q, cachedKeys), []);
  }

  lemma ZeroBeside(configs: seq<KeyServerConfig>, some: seq<ObjectId>, zero: ObjectId, threshold: int)
    requires JustEnough(configs, some, threshold) && Weight(configs, zero) == 0 && Distinct(some)
    ensures zero !in some && Distinct([zero] + some) && |[zero] + some| == |some| + 1
    ensures WeightOf(configs, [zero] + some) == WeightOf(configs, some) >= threshold
  {
    hide Weight;
    assert ([zero] + some)[1..] == some;
  }
}
