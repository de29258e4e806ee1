/** The Seal client: which key servers an object may be opened with, and the path from fetched keys
    to the plaintext. After packages/seal/src/client.ts. */
module SealClient {
  import Dem
  import opened Ibe
  import opened Results
  import opened Seal
  import opened KeyFetch
  import opened Interpolation

  /** The number of occurrences of a value, as utils.ts counts them. */
  function Count(ids: seq<ObjectId>, id: ObjectId): nat {
    if ids == [] then 0
    else Count(ids[..|ids| - 1], id) + (if ids[|ids| - 1] == id then 1 else 0)
  }

  datatype ValidationError = InconsistentKeyServers | ThresholdTooHigh

  function ValidateEncryptionServices(configs: seq<KeyServerConfig>, services: seq<ObjectId>, threshold: int)
    : Result<(), ValidationError>
  {
    if exists i :: 0 <= i < |services| && Weight(configs, services[i]) > 0
        && Weight(configs, services[i]) != Count(services, services[i])
    then Failure(InconsistentKeyServers)
    else if threshold > TotalWeight(configs) then Failure(ThresholdTooHigh)
    else Success(())
  }

  /** The summed number of occurrences of a list of servers among the services. */
  function SumCounts(holders: seq<ObjectId>, services: seq<ObjectId>): nat {
    if holders == [] then 0 else Count(services, holders[0]) + SumCounts(holders[1..], services)
  }

  // ---------- Slots that decrypt finds, against weights that fetchKeys counted ----------

  lemma {:induction false} SumCountsAppend(holders: seq<ObjectId>, services: seq<ObjectId>, id: ObjectId)
    requires Distinct(holders)
    ensures SumCounts(holders, services + [id]) == SumCounts(holders, services) + (if id in holders then 1 else 0)
  {
    if holders != [] {
      SumCountsAppend(holders[1..], services, id);
      assert (services + [id])[..|services|] == services;
      assert holders == [holders[0]] + holders[1..];
      assert holders[0] !in holders[1..];
    }
  }

  lemma {:induction false} SumCountsOfNothing(holders: seq<ObjectId>)
    ensures SumCounts(holders, []) == 0
  {
    if holders != [] {
      SumCountsOfNothing(holders[1..]);
    }
  }

  /** Every occurrence of a holder among the services is a slot; there are no others when only the
      holders' keys are held. */
  lemma {:induction false} SlotsAreCounts<G1>(fullId: string, services: seq<(ObjectId, int)>, keys: KeyStore<G1>,
                                             holders: seq<ObjectId>, n: nat)
    requires n <= |services| && Distinct(holders)
    requires forall id :: id in holders ==> (fullId, id) in keys
    ensures |InKeyStore(fullId, services, keys, n)| >= SumCounts(holders, ServiceIds(services)[..n])
    ensures (forall id :: (fullId, id) in keys ==> id in holders) ==>
              |InKeyStore(fullId, services, keys, n)| == SumCounts(holders, ServiceIds(services)[..n])
    decreases n
  {
    var ids := ServiceIds(services);
    if n == 0 {
      assert ids[..0] == [];
      SumCountsOfNothing(holders);
    } else {
      SlotsAreCounts(fullId, services, keys, holders, n - 1);
      assert ids[..n] == ids[..n - 1] + [ids[n - 1]];
      SumCountsAppend(holders, ids[..n - 1], ids[n - 1]);
    }
  }

  /** Where validation accepted the services, a listed server of positive weight has one slot for each
      unit of weight. */
  ghost predicate CountsMatch(configs: seq<KeyServerConfig>, services: seq<ObjectId>) {
    forall i :: 0 <= i < |services| && Weight(configs, services[i]) > 0 ==>
        Weight(configs, services[i]) == Count(services, services[i])
  }

  lemma ValidationChecks(configs: seq<KeyServerConfig>, services: seq<ObjectId>, threshold: int)
    ensures ValidateEncryptionServices(configs, services, threshold).Success? <==>
            CountsMatch(configs, services) && threshold <= TotalWeight(configs)
  {
    hide Weight, Count;
  }

  lemma {:induction false} CountIsPlaces(services: seq<ObjectId>, id: ObjectId)
    ensures Count(services, id) == |set i | 0 <= i < |services| && services[i] == id|
    decreases |services|
  {
    var places := set i | 0 <= i < |services| && services[i] == id;
    if services == [] {
      assert places == {};
    } else {
      var n := |services| - 1;
      var init := services[..n];
      var before := set i | 0 <= i < |init| && init[i] == id;
      CountIsPlaces(init, id);
      assert places == if services[n] == id then before + {n} else before;
    }
  }

  /** Validation fails exactly if some listed server that the client gives a weight is not listed as
      often as it weighs, or else if the threshold is above the sum of all weights. */
  lemma ValidationFailsExactly(configs: seq<KeyServerConfig>, services: seq<ObjectId>, threshold: int)
    requires ValidConfigs(configs)
    ensures ValidateEncryptionServices(configs, services, threshold) ==
            if exists c, i :: 0 <= c < |configs| && 0 <= i < |services| && configs[c].objectId == services[i]
                  && configs[c].weight > 0
                  && configs[c].weight != |set k | 0 <= k < |services| && services[k] == services[i]|
            then Failure(InconsistentKeyServers)
            else if threshold > WeightOf(configs, ConfigIds(configs)) then Failure(ThresholdTooHigh)
            else Success(())
  {
    WeightOfConfigIds(configs);
    hide WeightOf, TotalWeight, Count;
    forall i | 0 <= i < |services|
      ensures Count(services, services[i]) == |set k | 0 <= k < |services| && services[k] == services[i]|
      ensures Weight(configs, services[i]) > 0 ==>
          exists c :: 0 <= c < |configs| && configs[c].objectId == services[i]
      ensures forall c :: 0 <= c < |configs| && configs[c].objectId == services[i] ==>
          Weight(configs, services[i]) == configs[c].weight
    {
      CountIsPlaces(services, services[i]);
      WeightIsConfigured(configs, services[i]);
    }
    hide Weight;
  }

  lemma {:induction false} WeightIsConfigured(configs: seq<KeyServerConfig>, id: ObjectId)
    requires ValidConfigs(configs)
    ensures Weight(configs, id) > 0 ==> exists c :: 0 <= c < |configs| && configs[c].objectId == id
    ensures forall c :: 0 <= c < |configs| && configs[c].objectId == id ==> Weight(configs, id) == configs[c].weight
  {
    forall c | 0 <= c < |configs| && configs[c].objectId == id ensures Weight(configs, id) == configs[c].weight {
      WeightAt(configs, c);
    }
    WeightOfUnknown(configs, id);
  }

  lemma {:induction false} WeightOfUnknown(configs: seq<KeyServerConfig>, id: ObjectId)
    ensures Weight(configs, id) > 0 ==> exists c :: 0 <= c < |configs| && configs[c].objectId == id
  {
    if configs != [] && configs[0].objectId != id {
      WeightOfUnknown(configs[1..], id);
      if Weight(configs, id) > 0 {
        var c :| 0 <= c < |configs[1..]| && configs[1..][c].objectId == id;
        assert configs[c + 1].objectId == id;
      }
    }
  }

  ghost predicate Listed(configs: seq<KeyServerConfig>, ids: seq<ObjectId>, services: seq<ObjectId>) {
    forall id :: id in ids && Weight(configs, id) > 0 ==> id in services
  }

  lemma {:induction false} CountOfAbsent(services: seq<ObjectId>, id: ObjectId)
    requires id !in services
    ensures Count(services, id) == 0
  {
    if services != [] {
      CountOfAbsent(services[..|services| - 1], id);
    }
  }

  /** Weights never exceed slots when every weighty holder is listed; where one is missing the slots fall short. */
  lemma {:induction false} WeightsAgainstCounts(configs: seq<KeyServerConfig>, services: seq<ObjectId>,
                                                holders: seq<ObjectId>)
    requires CountsMatch(configs, services)
    ensures Listed(configs, holders, services) ==> WeightOf(configs, holders) <= SumCounts(holders, services)
    ensures (forall id :: id in holders ==> Weight(configs, id) > 0) ==>
              WeightOf(configs, holders) >= SumCounts(holders, services)
    ensures (forall id :: id in holders ==> Weight(configs, id) > 0) && !Listed(configs, holders, services) ==>
              WeightOf(configs, holders) > SumCounts(holders, services)
  {
    hide Count, Weight;
    if holders != [] {
      assert holders == [holders[0]] + holders[1..];
      WeightsAgainstCounts(configs, services, holders[1..]);
      if holders[0] !in services {
        CountOfAbsent(services, holders[0]);
      } else {
        var i :| 0 <= i < |services| && services[i] == holders[0];
      }
    }
  }

  /** Keys of servers of at least the threshold's weight open at least the threshold of slots, provided
      the object lists every server of the client that carries weight. */
  lemma HoldersSuffice<G1>(configs: seq<KeyServerConfig>, services: seq<(ObjectId, int)>, threshold: int,
                           fullId: string, keys: KeyStore<G1>, holders: seq<ObjectId>)
    requires ValidateEncryptionServices(configs, ServiceIds(services), threshold).Success?
    requires Listed(configs, ConfigIds(configs), ServiceIds(services))
    requires Distinct(holders) && forall id :: id in holders ==> id in ConfigIds(configs) && (fullId, id) in keys
    requires WeightOf(configs, holders) >= threshold
    ensures SlotsHeld(fullId, services, keys) >= threshold
  {
    hide WeightOf, SumCounts, Weight, Count;
    var ids := ServiceIds(services);
    ValidationChecks(configs, ids, threshold);
    WeightsAgainstCounts(configs, ids, holders);
    SlotsAreCounts(fullId, services, keys, holders, |services|);
    assert ids[..|services|] == ids;
  }

  /** What the client's decrypt goes through before it decrypts an object with these services: the
      validation accepts it, and fetchKeys returns normally for some contents of the cache beforehand
      and some interleaving of replies. */
  ghost predicate Fetched<G1, G2, GT, Scalar>(q: Request<G1, G2, GT, Scalar>, services: seq<(ObjectId, int)>,
                                              cachedKeys: KeyStore<G1>, events: seq<Event<G1, G2>>)
  {
    && ValidateEncryptionServices(q.configs, ServiceIds(services), q.threshold).Success?
    && CacheVerified(q.suite, q.servers, cachedKeys)
    && EnabledRun(q, Initial(q, cachedKeys), events)
    && FetchKeys(q, cachedKeys, events).0.Success?
  }

  /** After every normal return of fetchKeys, decrypt finds at least the threshold of slots, provided the
      object lists every server of the client that carries weight. */
  lemma FetchedKeysSuffice<G1, G2, GT, Scalar>(q: Request<G1, G2, GT, Scalar>, services: seq<(ObjectId, int)>,
                                               fullId: string, cachedKeys: KeyStore<G1>, events: seq<Event<G1, G2>>)
    requires ValidConfigs(q.configs) && ServerIds(q.servers) == ConfigIds(q.configs) && fullId in q.fullIds
    requires Fetched(q, services, cachedKeys, events)
    requires Listed(q.configs, ConfigIds(q.configs), ServiceIds(services))
    ensures SlotsHeld(fullId, services, FetchKeys(q, cachedKeys, events).1.cachedKeys) >= q.threshold
  {
    NormalReturnMeansThreshold(q, cachedKeys, events);
    var end := FetchKeys(q, cachedKeys, events).1;
    hide FetchKeys, EnabledRun, ValidateEncryptionServices, CacheVerified, ThresholdCached, Listed;
    HoldersHold(q, end.cachedKeys, end.completed, fullId);
    HoldersSuffice(q.configs, services, q.threshold, fullId, end.cachedKeys, end.completed);
  }

  lemma HoldersHold<G1, G2, GT, Scalar>(q: Request<G1, G2, GT, Scalar>, keys: KeyStore<G1>, holders: seq<ObjectId>,
                                        fullId: string)
    requires fullId in q.fullIds && ThresholdCached(q, keys, holders) && ServerIds(q.servers) == ConfigIds(q.configs)
    ensures Distinct(holders) && WeightOf(q.configs, holders) >= q.threshold
    ensures forall id :: id in holders ==> id in ConfigIds(q.configs) && (fullId, id) in keys
  {
    hide WeightOf;
    var k :| 0 <= k < |q.fullIds| && q.fullIds[k] == fullId;
  }

  /** Every normal return of fetchKeys, for every threshold that the validation lets through, leaves
      decrypt enough slots. */
  ghost predicate AlwaysSuffices<G1(!new), G2(!new), GT, Scalar>(
      s: Suite<G1, G2, GT, Scalar>, configs: seq<KeyServerConfig>, servers: seq<Server<G2>>,
      services: seq<(ObjectId, int)>, fullId: string)
  {
    forall threshold: int, cachedKeys: KeyStore<G1>, events: seq<Event<G1, G2>> ::
      Fetched(Request(s, configs, servers, [fullId], threshold), services, cachedKeys, events) ==>
        var end := FetchKeys(Request(s, configs, servers, [fullId], threshold), cachedKeys, events).1;
        SlotsHeld(fullId, services, end.cachedKeys) >= threshold
  }

  function Positive(configs: seq<KeyServerConfig>, ids: seq<ObjectId>): seq<ObjectId> {
    if ids == [] then []
    else if Weight(configs, ids[0]) > 0 then [ids[0]] + Positive(configs, ids[1..])
    else Positive(configs, ids[1..])
  }

  lemma {:induction false} PositiveKeepsWeight(configs: seq<KeyServerConfig>, ids: seq<ObjectId>)
    requires Distinct(ids)
    ensures Distinct(Positive(configs, ids)) && WeightOf(configs, Positive(configs, ids)) == WeightOf(configs, ids)
    ensures forall id :: id in Positive(configs, ids) <==> id in ids && Weight(configs, id) > 0
  {
    hide Weight;
    if ids != [] {
      assert ids == [ids[0]] + ids[1..];
      assert ids[0] !in ids[1..];
      PositiveKeepsWeight(configs, ids[1..]);
      var rest := Positive(configs, ids[1..]);
      assert ([ids[0]] + rest)[1..] == rest;
    }
  }

  lemma {:induction false} WeightlessWeighNothing(configs: seq<KeyServerConfig>, ids: seq<ObjectId>)
    requires forall id :: id in ids ==> Weight(configs, id) == 0
    ensures WeightOf(configs, ids) == 0
  {
    hide Weight;
    if ids != [] {
      assert ids == [ids[0]] + ids[1..];
      WeightlessWeighNothing(configs, ids[1..]);
    }
  }

  /** A user key for each server that passes the verification equation. */
  ghost predicate UserKeys<G1, G2, GT, Scalar>(s: Suite<G1, G2, GT, Scalar>, servers: seq<Server<G2>>, fullId: string,
                                               userKeys: map<ObjectId, G1>)
  {
    forall i :: 0 <= i < |servers| ==>
      servers[i].objectId in userKeys && VerifyUserSecretKey(s, userKeys[servers[i].objectId], fullId, servers[i].pk)
  }

  /** The validation's message asks for the client's servers to be a subset of the object's, but the
      check never looks at a client server that the object does not list. Given that it accepts, what
      fetchKeys leaves after a normal return always suffices exactly when every client server of
      positive weight is listed. */
  lemma FetchedKeysSufficeExactly<G1(!new), G2(!new), GT, Scalar>(
      s: Suite<G1, G2, GT, Scalar>, configs: seq<KeyServerConfig>, servers: seq<Server<G2>>,
      services: seq<(ObjectId, int)>, fullId: string, userKeys: map<ObjectId, G1>)
    requires ValidConfigs(configs) && ServerIds(servers) == ConfigIds(configs)
    requires UserKeys(s, servers, fullId, userKeys) && CountsMatch(configs, ServiceIds(services))
    ensures AlwaysSuffices(s, configs, servers, services, fullId) <==>
            Listed(configs, ConfigIds(configs), ServiceIds(services))
  {
    hide Fetched, FetchKeys, SlotsHeld, Listed, CountsMatch, UserKeys, ValidConfigs;
    if Listed(configs, ConfigIds(configs), ServiceIds(services)) {
      forall threshold: int, cachedKeys: KeyStore<G1>, events: seq<Event<G1, G2>> |
        Fetched(Request(s, configs, servers, [fullId], threshold), services, cachedKeys, events)
        ensures var end := FetchKeys(Request(s, configs, servers, [fullId], threshold), cachedKeys, events).1;
                SlotsHeld(fullId, services, end.cachedKeys) >= threshold
      {
        FetchedKeysSuffice(Request(s, configs, servers, [fullId], threshold), services, fullId, cachedKeys, events);
      }
    } else {
      var threshold, cachedKeys := UnlistedServerFallsShort(s, configs, servers, services, fullId, userKeys);
      assert Fetched(Request(s, configs, servers, [fullId], threshold), services, cachedKeys, []);
    }
  }

  /** With an unlisted server of positive weight and the total weight as threshold, validation accepts
      the object and fetchKeys returns normally with verified keys of every server that carries
      weight, and decrypt still finds too few slots. */
  lemma UnlistedServerFallsShort<G1, G2, GT, Scalar>(
      s: Suite<G1, G2, GT, Scalar>, configs: seq<KeyServerConfig>, servers: seq<Server<G2>>,
      services: seq<(ObjectId, int)>, fullId: string, userKeys: map<ObjectId, G1>)
    returns (threshold: int, cachedKeys: KeyStore<G1>)
    requires ValidConfigs(configs) && ServerIds(servers) == ConfigIds(configs)
    requires UserKeys(s, servers, fullId, userKeys) && CountsMatch(configs, ServiceIds(services))
    requires !Listed(configs, ConfigIds(configs), ServiceIds(services))
    ensures var q := Request(s, configs, servers, [fullId], threshold);
            && Fetched(q, services, cachedKeys, [])
            && SlotsHeld(fullId, services, FetchKeys(q, cachedKeys, []).1.cachedKeys) < threshold
  {
    hide WeightOf, SumCounts, Weight, Count, TotalWeight, VerifyUserSecretKey;
    var ids, all := ServiceIds(services), ConfigIds(configs);
    threshold := TotalWeight(configs);
    var holders := Positive(configs, all);
    WeightOfConfigIds(configs);
    PositiveKeepsWeight(configs, all);
    forall id | id in holders
      ensures id in userKeys
    {
      var i :| 0 <= i < |all| && all[i] == id;
      assert ServerIds(servers)[i] == id;
    }
    cachedKeys := map id | id in holders :: (fullId, id) := userKeys[id];
    ValidationChecks(configs, ids, threshold);
    WeightsAgainstCounts(configs, ids, holders);
    SlotsAreCounts(fullId, services, cachedKeys, holders, |services|);
    assert ids[..|services|] == ids;
    CachedKeysReturnAtOnce(Request(s, configs, servers, [fullId], threshold), fullId, cachedKeys);
  }

  /** When all servers that carry weight have their keys cached, fetchKeys returns without a request. */
  lemma CachedKeysReturnAtOnce<G1, G2, GT, Scalar>(q: Request<G1, G2, GT, Scalar>, fullId: string,
                                                   cachedKeys: KeyStore<G1>)
    requires ValidConfigs(q.configs) && ServerIds(q.servers) == ConfigIds(q.configs) && q.fullIds == [fullId]
    requires 1 <= q.threshold <= TotalWeight(q.configs)
    requires forall id :: id in ConfigIds(q.configs) && Weight(q.configs, id) > 0 ==> (fullId, id) in cachedKeys
    ensures FetchKeys(q, cachedKeys, []) == (Success(()), Initial(q, cachedKeys))
  {
    hide WeightOf, Weight, TotalWeight, Select;
    var all := ServerIds(q.servers);
    SelectPartitions(q.configs, all, cachedKeys, q.fullIds);
    WeightOfConfigIds(q.configs);
    var missing := Select(all, cachedKeys, q.fullIds, false);
    forall id | id in missing
      ensures Weight(q.configs, id) == 0
    {
      assert !HoldsAll(cachedKeys, q.fullIds, id);
    }
    WeightlessWeighNothing(q.configs, missing);
  }

  // ---------- The servers with multiplicity that encryption uses ----------

  function Repeated(server: KeyServer, n: nat): (r: seq<KeyServer>)
    ensures |r| == n && forall i :: 0 <= i < n ==> r[i] == server
  {
    seq(n, _ => server)
  }

  /** Each server as often as its weight, in the order of the configuration. */
  function Weighted(configs: seq<KeyServerConfig>, servers: seq<KeyServer>, n: nat): seq<KeyServer>
    requires |configs| == |servers| && n <= |configs|
  {
    if n == 0 then [] else Weighted(configs, servers, n - 1) + Repeated(servers[n - 1], configs[n - 1].weight)
  }

  method GetWeightedKeyServers(configs: seq<KeyServerConfig>, servers: seq<KeyServer>) returns (r: seq<KeyServer>)
    requires |configs| == |servers|
    ensures r == Weighted(configs, servers, |configs|)
  {
    r := [];
    for k := 0 to |configs|
      invariant r == Weighted(configs, servers, k)
    {
      for i := 0 to configs[k].weight
        invariant r == Weighted(configs, servers, k) + Repeated(servers[k], i)
      {
        assert Repeated(servers[k], i + 1) == Repeated(servers[k], i) + [servers[k]];
        r := r + [servers[k]];
      }
    }
  }

  lemma {:induction false} CountConcat(a: seq<ObjectId>, b: seq<ObjectId>, id: ObjectId)
    ensures Count(a + b, id) == Count(a, id) + Count(b, id)
  {
    if b == [] {
      assert a + b == a;
    } else {
      assert (a + b)[..|a + b| - 1] == a + b[..|b| - 1];
      CountConcat(a, b[..|b| - 1], id);
    }
  }

  lemma {:induction false} CountRepeated(server: KeyServer, n: nat, id: ObjectId)
    ensures Count(ObjectIds(Repeated(server, n)), id) == if server.objectId == id then n else 0
  {
    if n > 0 {
      CountRepeated(server, n - 1, id);
      assert ObjectIds(Repeated(server, n))[..n - 1] == ObjectIds(Repeated(server, n - 1));
    }
  }

  lemma {:induction false} CountWeighted(configs: seq<KeyServerConfig>, servers: seq<KeyServer>, n: nat, k: nat)
    requires ValidConfigs(configs) && ObjectIds(servers) == ConfigIds(configs) && n <= |configs| && k < |configs|
    ensures Count(ObjectIds(Weighted(configs, servers, n)), configs[k].objectId) == if k < n
        then configs[k].weight else 0
  {
    hide Count;
    if n == 0 {
      assert Count([], configs[k].objectId) == 0 by { CountOfAbsent([], configs[k].objectId); }
    } else {
      CountWeighted(configs, servers, n - 1, k);
      var a, b := Weighted(configs, servers, n - 1), Repeated(servers[n - 1], configs[n - 1].weight);
      assert ObjectIds(a + b) == ObjectIds(a) + ObjectIds(b);
      CountConcat(ObjectIds(a), ObjectIds(b), configs[k].objectId);
      CountRepeated(servers[n - 1], configs[n - 1].weight, configs[k].objectId);
      assert ObjectIds(servers)[n - 1] == ConfigIds(configs)[n - 1];
      assert k != n - 1 ==> ConfigIds(configs)[k] != ConfigIds(configs)[n - 1];
    }
  }

  lemma {:induction false} WeightedMembers(configs: seq<KeyServerConfig>, servers: seq<KeyServer>, n: nat)
    requires |configs| == |servers| && n <= |configs|
    ensures forall server :: server in Weighted(configs, servers, n) ==> server in servers
    ensures forall k :: 0 <= k < n && configs[k].weight > 0 ==> servers[k] in Weighted(configs, servers, n)
  {
    if n > 0 {
      WeightedMembers(configs, servers, n - 1);
      var r := Repeated(servers[n - 1], configs[n - 1].weight);
      assert configs[n - 1].weight > 0 ==> r[0] == servers[n - 1] && r[0] in r;
    }
  }

  /** An object encrypted for the client's own weighted servers passes the validation of that client
      for every threshold up to the total weight, and lists every server of positive weight. */
  lemma OwnServersValidate(configs: seq<KeyServerConfig>, servers: seq<KeyServer>, threshold: int)
    requires ValidConfigs(configs) && ObjectIds(servers) == ConfigIds(configs) && threshold <= TotalWeight(configs)
    ensures var ids := ObjectIds(Weighted(configs, servers, |configs|));
            && ValidateEncryptionServices(configs, ids, threshold).Success?
            && Listed(configs, ConfigIds(configs), ids)
  {
    var weighted := Weighted(configs, servers, |configs|);
    var ids := ObjectIds(weighted);
    WeightedMembers(configs, servers, |configs|);
    hide Weighted, Count, Weight, TotalWeight;
    forall i | 0 <= i < |ids| ensures Weight(configs, ids[i]) == Count(ids, ids[i]) {
      assert weighted[i] in servers;
      var k :| 0 <= k < |servers| && servers[k] == weighted[i];
      assert ObjectIds(servers)[k] == ConfigIds(configs)[k];
      CountWeighted(configs, servers, |configs|, k);
      WeightAt(configs, k);
    }
    forall id | id in ConfigIds(configs) && Weight(configs, id) > 0 ensures id in ids {
      var k :| 0 <= k < |configs| && ConfigIds(configs)[k] == id;
      WeightAt(configs, k);
      assert servers[k] in weighted;
      var i :| 0 <= i < |weighted| && weighted[i] == servers[k];
      assert ids[i] == ObjectIds(servers)[k];
    }
    ValidationChecks(configs, ids, threshold);
  }

  // ---------- From the client's encrypt to the client's decrypt ----------

  function PublicKeyServers<G1, G2, GT, Scalar>(s: Suite<G1, G2, GT, Scalar>, servers: seq<KeyServer>)
    : (r: seq<Server<G2>>)
    requires forall i :: 0 <= i < |servers| ==> s.g2FromBytes(servers[i].pk).Some?
    ensures |r| == |servers|
    ensures forall i :: 0 <= i < |r| ==> r[i] == Server(servers[i].objectId, Seal.Key(s, servers[i]))
  {
    seq(|servers|, i requires 0 <= i < |servers| => Server(servers[i].objectId, Seal.Key(s, servers[i])))
  }

  function ClientRequest<G1, G2, GT, Scalar>(s: Suite<G1, G2, GT, Scalar>, configs: seq<KeyServerConfig>,
                                             servers: seq<KeyServer>, threshold: int, fullId: string)
    : Request<G1, G2, GT, Scalar>
    requires forall i :: 0 <= i < |servers| ==> s.g2FromBytes(servers[i].pk).Some?
  {
    Request(s, configs, PublicKeyServers(s, servers), [fullId], threshold)
  }

  /** An object that the client encrypted for its own servers: whenever fetchKeys returns normally,
      for any contents of the cache beforehand, any replies and any interleaving, the client's
      validation accepts the object and decrypting with the cached keys gives the plaintext. */
  lemma ClientRoundTrip<G1(!new), G2(!new), GT, Scalar(!new)>(
      s: Suite<G1, G2, GT, Scalar>, configs: seq<KeyServerConfig>, servers: seq<KeyServer>, threshold: int,
      packageId: string, id: string, input: Dem.EncryptionInput, coins: Coins<Scalar>, cachedKeys: KeyStore<G1>,
      events: seq<Event<G1, G2>>)
    requires Lawful(s) && |coins.baseKey| == 32
    requires ValidConfigs(configs) && ObjectIds(servers) == ConfigIds(configs)
    requires forall i :: 0 <= i < |servers| ==> s.g2FromBytes(servers[i].pk).Some?
    requires Acceptable(s, Weighted(configs, servers, |configs|), threshold, packageId)
    requires var q := ClientRequest(s, configs, servers, threshold, CreateFullId(s, packageId, id).value);
             && CacheVerified(s, q.servers, cachedKeys)
             && EnabledRun(q, Initial(q, cachedKeys), events)
             && FetchKeys(q, cachedKeys, events).0.Success?
    ensures var q := ClientRequest(s, configs, servers, threshold, CreateFullId(s, packageId, id).value);
            var encrypted := Encrypt(s, Weighted(configs, servers, |configs|), threshold, packageId, id, input, coins);
            && encrypted.Success?
            && ValidateEncryptionServices(configs, ServiceIds(encrypted.value.sealed.services), threshold).Success?
            && Decrypt(s, encrypted.value.sealed, FetchKeys(q, cachedKeys, events).1.cachedKeys)
               == Success(input.plaintext)
  {
    var weighted := Weighted(configs, servers, |configs|);
    var fullId := CreateFullId(s, packageId, id).value;
    var q := ClientRequest(s, configs, servers, threshold, fullId);
    assert ServerIds(q.servers) == ConfigIds(configs) by { assert ServerIds(q.servers) == ObjectIds(servers); }
    assert threshold <= TotalWeight(configs);
    NormalReturnMeansThreshold(q, cachedKeys, events);
    var end := FetchKeys(q, cachedKeys, events).1;
    WeightedKeysVerified(s, configs, servers, fullId, end.cachedKeys);
    DecryptInvertsEncryption(s, weighted, threshold, packageId, id, input, coins, end.cachedKeys);
    var sealed := Encrypt(s, weighted, threshold, packageId, id, input, coins).value.sealed;
    SealedServices(s, weighted, threshold, packageId, id, input, coins);
    OwnServersValidate(configs, servers, threshold);
    assert Fetched(q, sealed.services, cachedKeys, events);
    hide *;
    FetchedKeysSuffice(q, sealed.services, fullId, cachedKeys, events);
  }

  /** All cached keys are those of the client's servers. */
  ghost predicate KeysOfServers<G1>(ids: seq<ObjectId>, cachedKeys: KeyStore<G1>) {
    forall key: KeyCacheKey :: key in cachedKeys ==> key.1 in ids
  }

  lemma {:induction false} RunKeepsOwners<G1, G2, GT, Scalar>(q: Request<G1, G2, GT, Scalar>, st: State<G1>,
                                                              events: seq<Event<G1, G2>>)
    requires Distinct(ServerIds(q.servers)) && EnabledRun(q, st, events)
    requires KeysOfServers(ServerIds(q.servers), st.cachedKeys)
    ensures KeysOfServers(ServerIds(q.servers), Run(q, st, events).cachedKeys)
    decreases |events|
  {
    hide VerifyUserSecretKey, KeysOfServers;
    if events != [] {
      StepKeepsOwners(q, st, events[0]);
      hide Step;
      RunKeepsOwners(q, Step(q, st, events[0]), events[1..]);
    }
  }

  lemma StepKeepsOwners<G1, G2, GT, Scalar>(q: Request<G1, G2, GT, Scalar>, st: State<G1>, e: Event<G1, G2>)
    requires Distinct(ServerIds(q.servers)) && Enabled(q, st, e) && KeysOfServers(ServerIds(q.servers), st.cachedKeys)
    ensures KeysOfServers(ServerIds(q.servers), Step(q, st, e).cachedKeys)
  {
    hide VerifyUserSecretKey, CacheKeys, HoldsAll, Weight, WeightOf, Distinct;
    var i :| 0 <= i < |q.servers| && q.servers[i] == e.server;
    assert ServerIds(q.servers)[i] == e.server.objectId;
    if e.Settled? && e.reply.Keys? {
      CacheKeysGrows(q.suite, q.servers, e.server, e.reply.keys, st.cachedKeys);
    }
  }

  /** An object that anyone encrypted, for any list of servers: if it lists every server of the client
      that carries weight, with the client's public keys, then whenever the validation accepts it and
      fetchKeys returns normally, decrypting with the cached keys gives the plaintext. */
  lemma ClientOpensObject<G1(!new), G2(!new), GT, Scalar(!new)>(
      s: Suite<G1, G2, GT, Scalar>, configs: seq<KeyServerConfig>, servers: seq<KeyServer>, all: seq<KeyServer>,
      threshold: int, packageId: string, id: string, input: Dem.EncryptionInput, coins: Coins<Scalar>,
      cachedKeys: KeyStore<G1>, events: seq<Event<G1, G2>>)
    requires Lawful(s) && |coins.baseKey| == 32 && Acceptable(s, all, threshold, packageId)
    requires ValidConfigs(configs) && ObjectIds(servers) == ConfigIds(configs)
    requires forall i :: 0 <= i < |servers| ==> s.g2FromBytes(servers[i].pk).Some?
    requires forall i, k :: 0 <= i < |all| && 0 <= k < |servers| && all[i].objectId == servers[k].objectId ==>
               all[i] == servers[k]
    requires Listed(configs, ConfigIds(configs), ObjectIds(all)) && KeysOfServers(ConfigIds(configs), cachedKeys)
    requires Encrypt(s, all, threshold, packageId, id, input, coins).Success?
    requires Fetched(ClientRequest(s, configs, servers, threshold, CreateFullId(s, packageId, id).value),
                     Encrypt(s, all, threshold, packageId, id, input, coins).value.sealed.services, cachedKeys, events)
    ensures var q := ClientRequest(s, configs, servers, threshold, CreateFullId(s, packageId, id).value);
            Decrypt(s, Encrypt(s, all, threshold, packageId, id, input, coins).value.sealed,
                    FetchKeys(q, cachedKeys, events).1.cachedKeys)
            == Success(input.plaintext)
  {
    var fullId := CreateFullId(s, packageId, id).value;
    var q := ClientRequest(s, configs, servers, threshold, fullId);
    assert ServerIds(q.servers) == ConfigIds(configs) by { assert ServerIds(q.servers) == ObjectIds(servers); }
    var end := FetchKeys(q, cachedKeys, events).1;
    var sealed := Encrypt(s, all, threshold, packageId, id, input, coins).value.sealed;
    SealedServices(s, all, threshold, packageId, id, input, coins);
    FetchKeepsOwners(q, cachedKeys, events);
    NormalReturnMeansThreshold(q, cachedKeys, events);
    assert forall i :: 0 <= i < |all| ==> s.g2FromBytes(all[i].pk).Some?;
    hide Lawful, Acceptable, Encrypt, Decrypt, FetchKeys, EnabledRun, Fetched, CacheVerified, KeysVerified;
    hide CreateFullId, Listed, ValidConfigs;
    ObjectKeysVerified(s, servers, all, fullId, end.cachedKeys);
    DecryptInvertsEncryption(s, all, threshold, packageId, id, input, coins, end.cachedKeys);
    FetchedKeysSuffice(q, sealed.services, fullId, cachedKeys, events);
  }

  lemma FetchKeepsOwners<G1, G2, GT, Scalar>(q: Request<G1, G2, GT, Scalar>, cachedKeys: KeyStore<G1>,
                                             events: seq<Event<G1, G2>>)
    requires Distinct(ServerIds(q.servers)) && EnabledRun(q, Initial(q, cachedKeys), events)
    requires KeysOfServers(ServerIds(q.servers), cachedKeys)
    ensures KeysOfServers(ServerIds(q.servers), FetchKeys(q, cachedKeys, events).1.cachedKeys)
  {
    hide KeysOfServers, EnabledRun, Run;
    RunKeepsOwners(q, Initial(q, cachedKeys), events);
  }

  lemma ObjectKeysVerified<G1, G2, GT, Scalar>(s: Suite<G1, G2, GT, Scalar>, servers: seq<KeyServer>,
                                               all: seq<KeyServer>, fullId: string, keys: KeyStore<G1>)
    requires forall i :: 0 <= i < |servers| ==> s.g2FromBytes(servers[i].pk).Some?
    requires forall i :: 0 <= i < |all| ==> s.g2FromBytes(all[i].pk).Some?
    requires forall i, k :: 0 <= i < |all| && 0 <= k < |servers| && all[i].objectId == servers[k].objectId ==>
               all[i] == servers[k]
    requires KeysOfServers(ObjectIds(servers), keys) && CacheVerified(s, PublicKeyServers(s, servers), keys)
    ensures KeysVerified(s, all, fullId, keys)
  {
    hide VerifyUserSecretKey;
    forall i | 0 <= i < |all| && (fullId, all[i].objectId) in keys
      ensures VerifyUserSecretKey(s, keys[(fullId, all[i].objectId)], fullId, Seal.Key(s, all[i]))
    {
      assert all[i].objectId in ObjectIds(servers);
      var k :| 0 <= k < |servers| && ObjectIds(servers)[k] == all[i].objectId;
      assert PublicKeyServers(s, servers)[k] == Server(servers[k].objectId, Seal.Key(s, servers[k]));
    }
  }

  lemma SealedServices<G1(!new), G2(!new), GT, Scalar(!new)>(
      s: Suite<G1, G2, GT, Scalar>, servers: seq<KeyServer>, threshold: int, packageId: string, id: string,
      input: Dem.EncryptionInput, coins: Coins<Scalar>)
    requires Lawful(s) && Acceptable(s, servers, threshold, packageId) && |coins.baseKey| == 32
    ensures Encrypt(s, servers, threshold, packageId, id, input, coins).Success?
    ensures ServiceIds(Encrypt(s, servers, threshold, packageId, id, input, coins).value.sealed.services)
        == ObjectIds(servers)
  {
    SplitShapes(coins.baseKey, threshold, |servers|, coins.coefficients);
    var fullId := CreateFullId(s, packageId, id).value;
    var shares := Seal.Split(coins.baseKey, threshold, |servers|, coins.coefficients).value;
    EncryptShapes(s, servers, threshold, packageId, id, input, coins, fullId, shares);
    hide Encrypt, Seal.Split, Lawful;
    assert ServiceIds(Services(servers, shares)) == ObjectIds(servers);
  }

  lemma WeightedKeysVerified<G1, G2, GT, Scalar>(s: Suite<G1, G2, GT, Scalar>, configs: seq<KeyServerConfig>,
                                                 servers: seq<KeyServer>,
                                                 fullId: string, keys: KeyStore<G1>)
    requires |configs| == |servers|
    requires forall i :: 0 <= i < |servers| ==> s.g2FromBytes(servers[i].pk).Some?
    requires CacheVerified(s, PublicKeyServers(s, servers), keys)
    ensures var weighted := Weighted(configs, servers, |configs|);
            && (forall i :: 0 <= i < |weighted| ==> s.g2FromBytes(weighted[i].pk).Some?)
            && KeysVerified(s, weighted, fullId, keys)
  {
    var weighted := Weighted(configs, servers, |configs|);
    WeightedMembers(configs, servers, |configs|);
    hide Weighted, VerifyUserSecretKey;
    forall i | 0 <= i < |weighted|
      ensures s.g2FromBytes(weighted[i].pk).Some?
      ensures (fullId, weighted[i].objectId) in keys ==>
                VerifyUserSecretKey(s, keys[(fullId, weighted[i].objectId)], fullId, Seal.Key(s, weighted[i]))
    {
      assert weighted[i] in servers;
      var k :| 0 <= k < |servers| && servers[k] == weighted[i];
      assert PublicKeyServers(s, servers)[k] == Server(servers[k].objectId, Seal.Key(s, servers[k]));
    }
  }
}
