/** Encrypting and decrypting through the serialized bytes of the object, as encrypt and decrypt of
    packages/seal/src/client.ts do. */
module SealBytes {
  import Dem
  import opened Hex
  import opened Ibe
  import opened KeyFetch
  import opened Octets
  import opened Results
  import opened Seal
  import opened SealClient
  import opened Sequences
  import BcsLaws
  import BcsSchema
  import SealObject

  /** The bytes that encrypt returns. */
  function Serialized(sealed: EncryptedObject): Result<seq<Byte>, BcsSchema.BcsError> {
    BcsSchema.Encode(map[], 0, SealObject.ObjectSchema(), SealObject.ObjectValue(sealed))
  }

  /** The object that decrypt works on. */
  function Parsed(bytes: seq<Byte>): Option<EncryptedObject> {
    match BcsLaws.Parse(map[], 0, SealObject.ObjectSchema(), bytes)
    case Success((value, _)) => SealObject.ReadObject(value)
    case Failure(_) => None
  }

  ghost predicate Normal(ids: seq<ObjectId>) {
    forall i :: 0 <= i < |ids| ==> IsAddress(ids[i]) && NormalizeAddress(ids[i]) == ids[i]
  }

  /** Package, id and servers in the form that parsing gives them. */
  ghost predicate NormalNames(packageId: string, id: string, ids: seq<ObjectId>) {
    && Normal([packageId]) && Normal(ids)
    && FromHex(id).Some? && ToHex(FromHex(id).value) == id && |id| < 0x8000_0000
  }

  /** Points of the group of public keys take 96 bytes. */
  ghost predicate PointSizes<G1, G2(!new), GT, Scalar>(s: Suite<G1, G2, GT, Scalar>) {
    forall q :: |s.g2ToBytes(q)| == 96
  }

  ghost predicate Short(c: Dem.Ciphertext) {
    !c.Plain? ==> |c.blob| < 0x8000_0000 && |c.aad| < 0x8000_0000
  }

  /** What encrypt puts into the object has the sizes that the schema fixes. */
  lemma EncryptedIsWellSized<G1(!new), G2(!new), GT, Scalar(!new)>(
      s: Suite<G1, G2, GT, Scalar>, servers: seq<KeyServer>, threshold: int, packageId: string, id: string,
      input: Dem.EncryptionInput, coins: Coins<Scalar>)
    requires Lawful(s) && PointSizes(s) && Acceptable(s, servers, threshold, packageId) && |coins.baseKey| == 32
    ensures Encrypt(s, servers, threshold, packageId, id, input, coins).Success?
    ensures var sealed := Encrypt(s, servers, threshold, packageId, id, input, coins).value.sealed;
            && (Short(sealed.ciphertext) ==> SealObject.WellSized(sealed))
            && sealed.packageId == packageId && sealed.id == id && sealed.threshold == threshold
            && ServiceIds(sealed.services) == ObjectIds(servers)
  {
    SplitShapes(coins.baseKey, threshold, |servers|, coins.coefficients);
    var fullId := CreateFullId(s, packageId, id).value;
    var shares := Seal.Split(coins.baseKey, threshold, |servers|, coins.coefficients).value;
    EncryptShapes(s, servers, threshold, packageId, id, input, coins, fullId, shares);
    SealedServices(s, servers, threshold, packageId, id, input, coins);
    var sealed := Encrypt(s, servers, threshold, packageId, id, input, coins).value.sealed;
    var e := sealed.encryptedShares;
    assert |e.nonce| == 96;
    assert |e.encryptedShares| == |servers| && forall i :: 0 <= i < |servers| ==> |e.encryptedShares[i]| == 32;
    assert |e.encryptedRandomness| == 32 by {
      assert |s.scalarToBytes(coins.scalar)| == 32;
    }
    var demKey := DeriveKey(s, DemKey, coins.baseKey, e.encryptedShares, threshold, ObjectIds(servers)).value;
    CiphertextSizes(s, input, demKey);
  }

  lemma CiphertextSizes<G1(!new), G2(!new), GT, Scalar(!new)>(s: Suite<G1, G2, GT, Scalar>, input: Dem.EncryptionInput,
                                                              key: Dem.ByteString)
    requires Lawful(s)
    ensures var c := Dem.Encrypt(s.ciphers, input, key);
            Short(c) ==> SealObject.WellSizedCiphertext(c)
  {
  }

  /** An object with normal names survives serialization and parsing. */
  lemma BytesComeBack(sealed: EncryptedObject)
    requires SealObject.WellSized(sealed)
    requires NormalNames(sealed.packageId, sealed.id, ServiceIds(sealed.services))
    ensures Serialized(sealed).Success? && Parsed(Serialized(sealed).value) == Some(sealed)
  {
    var ids := ServiceIds(sealed.services);
    hide NormalizeAddress, IsAddress, FromHex, ToHex, BcsLaws.Parse, BcsSchema.Encode, SealObject.ObjectSchema;
    hide SealObject.ObjectValue, SealObject.ReadObject, SealObject.Normalized, SealObject.WellSized;
    assert IsAddress([sealed.packageId][0]) && NormalizeAddress([sealed.packageId][0]) == [sealed.packageId][0];
    forall i | 0 <= i < |sealed.services|
      ensures IsAddress(sealed.services[i].0) && NormalizeAddress(sealed.services[i].0) == sealed.services[i].0
    {
      assert IsAddress(ids[i]) && NormalizeAddress(ids[i]) == ids[i];
    }
    IdLength(sealed.id);
    SealObject.ObjectComesBack(map[], 0, sealed, []);
    assert Serialized(sealed).value + [] == Serialized(sealed).value;
  }

  lemma IdLength(id: string)
    requires FromHex(id).Some? && ToHex(FromHex(id).value) == id
    ensures |FromHex(id).value| <= |id|
  {
    Hex.BytesComeBack(FromHex(id).value);
  }

  /** The client accepts the object parsed from its bytes and decrypts it. */
  ghost predicate OpensFromBytes<G1, G2, GT, Scalar>(s: Suite<G1, G2, GT, Scalar>, configs: seq<KeyServerConfig>,
                                                     sealed: EncryptedObject, keys: KeyStore<G1>,
                                                     plaintext: Dem.ByteString)
    requires Dem.LawfulCiphers(s.ciphers)
  {
    && Serialized(sealed).Success?
    && var parsed := Parsed(Serialized(sealed).value);
       && parsed.Some?
       && ValidateEncryptionServices(configs, ServiceIds(parsed.value.services), parsed.value.threshold).Success?
       && Decrypt(s, parsed.value, keys) == Success(plaintext)
  }

  /** Through its bytes: an object that the client encrypted for its own servers is serialized, parsed,
      accepted and decrypted to its plaintext after every normal return of fetchKeys. */
  lemma ClientRoundTripThroughBytes<G1(!new), G2(!new), GT, Scalar(!new)>(
      s: Suite<G1, G2, GT, Scalar>, configs: seq<KeyServerConfig>, servers: seq<KeyServer>, threshold: int,
      packageId: string, id: string, input: Dem.EncryptionInput, coins: Coins<Scalar>, cachedKeys: KeyStore<G1>,
      events: seq<Event<G1, G2>>)
    requires Lawful(s) && PointSizes(s) && |coins.baseKey| == 32
    requires ValidConfigs(configs) && ObjectIds(servers) == ConfigIds(configs)
    requires forall i :: 0 <= i < |servers| ==> s.g2FromBytes(servers[i].pk).Some?
    requires Acceptable(s, Weighted(configs, servers, |configs|), threshold, packageId)
    requires NormalNames(packageId, id, ConfigIds(configs))
    requires var encrypted := Encrypt(s, Weighted(configs, servers, |configs|), threshold, packageId, id, input, coins);
             encrypted.Success? ==> Short(encrypted.value.sealed.ciphertext)
    requires var q := ClientRequest(s, configs, servers, threshold, CreateFullId(s, packageId, id).value);
             && CacheVerified(s, q.servers, cachedKeys)
             && EnabledRun(q, Initial(q, cachedKeys), events)
             && FetchKeys(q, cachedKeys, events).0.Success?
    ensures var q := ClientRequest(s, configs, servers, threshold, CreateFullId(s, packageId, id).value);
            var encrypted := Encrypt(s, Weighted(configs, servers, |configs|), threshold, packageId, id, input, coins);
            && encrypted.Success?
            && OpensFromBytes(s, configs, encrypted.value.sealed, FetchKeys(q, cachedKeys, events).1.cachedKeys,
                              input.plaintext)
  {
    var weighted := Weighted(configs, servers, |configs|);
    EncryptedIsWellSized(s, weighted, threshold, packageId, id, input, coins);
    OwnServersNormal(configs, servers);
    hide *;
    ClientRoundTrip(s, configs, servers, threshold, packageId, id, input, coins, cachedKeys, events);
    var sealed := Encrypt(s, weighted, threshold, packageId, id, input, coins).value.sealed;
    OthersNormal(packageId, id, ConfigIds(configs), ObjectIds(weighted));
    BytesComeBack(sealed);
    OpensAgain(s, configs, sealed, FetchKeys(ClientRequest(s, configs, servers, threshold,
                 CreateFullId(s, packageId, id).value), cachedKeys, events).1.cachedKeys, input.plaintext);
  }

  lemma OpensAgain<G1, G2, GT, Scalar>(s: Suite<G1, G2, GT, Scalar>, configs: seq<KeyServerConfig>,
                                       sealed: EncryptedObject, keys: KeyStore<G1>, plaintext: Dem.ByteString)
    requires Dem.LawfulCiphers(s.ciphers)
    requires Serialized(sealed).Success? && Parsed(Serialized(sealed).value) == Some(sealed)
    requires ValidateEncryptionServices(configs, ServiceIds(sealed.services), sealed.threshold).Success?
    requires Decrypt(s, sealed, keys) == Success(plaintext)
    ensures OpensFromBytes(s, configs, sealed, keys, plaintext)
  {
    hide Decrypt, Serialized, Parsed, ValidateEncryptionServices;
  }

  lemma OwnServersNormal(configs: seq<KeyServerConfig>, servers: seq<KeyServer>)
    requires ObjectIds(servers) == ConfigIds(configs)
    ensures forall id :: id in ObjectIds(Weighted(configs, servers, |configs|)) ==> id in ConfigIds(configs)
  {
    var weighted := Weighted(configs, servers, |configs|);
    WeightedMembers(configs, servers, |configs|);
    hide Weighted;
    forall i | 0 <= i < |weighted| ensures ObjectIds(weighted)[i] in ConfigIds(configs) {
      assert weighted[i] in servers;
      var k :| 0 <= k < |servers| && servers[k] == weighted[i];
      assert ObjectIds(servers)[k] == weighted[i].objectId;
    }
  }

  lemma OthersNormal(packageId: string, id: string, ids: seq<ObjectId>, others: seq<ObjectId>)
    requires NormalNames(packageId, id, ids) && forall x :: x in others ==> x in ids
    ensures NormalNames(packageId, id, others)
  {
    hide NormalizeAddress, IsAddress, FromHex, ToHex;
    forall i | 0 <= i < |others| ensures IsAddress(others[i]) && NormalizeAddress(others[i]) == others[i] {
      assert others[i] in ids;
      var k :| 0 <= k < |ids| && ids[k] == others[i];
    }
  }

  // ---------- Servers whose ids are not in normal form ----------

  /** The server ids of an object once it was parsed. */
  function NormalIds(ids: seq<ObjectId>): (r: seq<ObjectId>)
    ensures |r| == |ids| && forall i :: 0 <= i < |r| ==> r[i] == NormalizeAddress(ids[i])
  {
    Map(NormalizeAddress, ids)
  }

  ghost predicate DistinctAddresses(ids: seq<ObjectId>) {
    && (forall i :: 0 <= i < |ids| ==> IsAddress(ids[i]))
    && forall i, j :: 0 <= i < j < |ids| ==> NormalizeAddress(ids[i]) != NormalizeAddress(ids[j])
  }

  /** Of servers with distinct addresses, a parsed id is the id of a server only if it was so before. */
  lemma ParsedIdIsOwn(ids: seq<ObjectId>, a: ObjectId, b: ObjectId)
    requires DistinctAddresses(ids) && a in ids && b in ids && NormalizeAddress(a) == b
    ensures a == b
  {
    hide NormalizeAddress, IsAddress;
    var i :| 0 <= i < |ids| && ids[i] == a;
    var j :| 0 <= j < |ids| && ids[j] == b;
    NormalizeTwice(a);
    assert NormalizeAddress(ids[i]) == NormalizeAddress(ids[j]);
  }

  lemma {:induction false} CountOfParsed(ids: seq<ObjectId>, services: seq<ObjectId>, id: ObjectId)
    requires DistinctAddresses(ids) && id in ids && NormalizeAddress(id) == id
    requires forall x :: x in services ==> x in ids
    ensures Count(NormalIds(services), id) == Count(services, id)
  {
    hide NormalizeAddress, DistinctAddresses;
    if services != [] {
      var n := |services| - 1;
      CountOfParsed(ids, services[..n], id);
      assert NormalIds(services)[..n] == NormalIds(services[..n]);
      assert services[n] in ids;
      if NormalizeAddress(services[n]) == id {
        ParsedIdIsOwn(ids, services[n], id);
      }
    }
  }

  /** In the parsed object of a client's own encryption, a server of positive weight has its slots under
      its id if and only if that id is in normal form. */
  lemma ParsedServersListed(configs: seq<KeyServerConfig>, servers: seq<KeyServer>)
    requires ValidConfigs(configs) && ObjectIds(servers) == ConfigIds(configs)
    requires DistinctAddresses(ConfigIds(configs))
    ensures var parsed := NormalIds(ObjectIds(Weighted(configs, servers, |configs|)));
            && CountsMatch(configs, parsed)
            && (Listed(configs, ConfigIds(configs), parsed) <==>
                  forall id :: id in ConfigIds(configs) && Weight(configs, id) > 0 ==> NormalizeAddress(id) == id)
  {
    var all, services := ConfigIds(configs), ObjectIds(Weighted(configs, servers, |configs|));
    var parsed := NormalIds(services);
    OwnServersNormal(configs, servers);
    OwnServersValidate(configs, servers, TotalWeight(configs));
    ValidationChecks(configs, services, TotalWeight(configs));
    hide NormalizeAddress, DistinctAddresses, Weighted, Weight, Count, ValidateEncryptionServices, ConfigIds;
    forall i | 0 <= i < |parsed| && Weight(configs, parsed[i]) > 0
      ensures Weight(configs, parsed[i]) == Count(parsed, parsed[i])
    {
      OnlyConfigured(configs, parsed[i]);
      assert services[i] in all;
      ParsedIdIsOwn(all, services[i], parsed[i]);
      CountOfParsed(all, services, parsed[i]);
    }
    forall id | id in all && Weight(configs, id) > 0
      ensures id in parsed <==> NormalizeAddress(id) == id
    {
      ParsedId(all, services, id);
    }
  }

  lemma OnlyConfigured(configs: seq<KeyServerConfig>, id: ObjectId)
    requires Weight(configs, id) > 0
    ensures id in ConfigIds(configs)
  {
    if configs[0].objectId != id {
      OnlyConfigured(configs[1..], id);
      var k :| 0 <= k < |configs[1..]| && ConfigIds(configs[1..])[k] == id;
      assert ConfigIds(configs)[k + 1] == id;
    } else {
      assert ConfigIds(configs)[0] == id;
    }
  }

  lemma ParsedId(all: seq<ObjectId>, services: seq<ObjectId>, id: ObjectId)
    requires DistinctAddresses(all) && id in all && id in services && forall x :: x in services ==> x in all
    ensures id in NormalIds(services) <==> NormalizeAddress(id) == id
  {
    hide NormalizeAddress, DistinctAddresses;
    var parsed := NormalIds(services);
    if id in parsed {
      var i :| 0 <= i < |parsed| && parsed[i] == id;
      assert services[i] in all;
      ParsedIdIsOwn(all, services[i], id);
    }
    var k :| 0 <= k < |services| && services[k] == id;
    assert parsed[k] == NormalizeAddress(id);
  }

  lemma ParsedIsNormalized(sealed: EncryptedObject)
    requires SealObject.WellSized(sealed) && SealObject.WellNamed(sealed)
    ensures Serialized(sealed).Success?
    ensures Parsed(Serialized(sealed).value) == Some(SealObject.Normalized(sealed))
    ensures ServiceIds(SealObject.Normalized(sealed).services) == NormalIds(ServiceIds(sealed.services))
  {
    hide NormalizeAddress, IsAddress, FromHex, ToHex, BcsLaws.Parse, BcsSchema.Encode, SealObject.ObjectSchema;
    hide SealObject.ObjectValue, SealObject.ReadObject, SealObject.WellSized, SealObject.WellNamed;
    assert FromHex(sealed.id).Some? by {
      NamedId(sealed);
    }
    SealObject.ObjectComesBack(map[], 0, sealed, []);
    assert Serialized(sealed).value + [] == Serialized(sealed).value;
  }

  lemma NamedId(sealed: EncryptedObject)
    requires SealObject.WellNamed(sealed)
    ensures FromHex(sealed.id).Some?
  {
    hide IsAddress, FromHex;
  }

  /** A client's own object, serialized and parsed: what fetchKeys leaves after a normal return always
      suffices if and only if every server of positive weight is configured under the normal form of its
      address. */
  lemma OwnBytesSufficeExactly<G1(!new), G2(!new), GT, Scalar>(
      s: Suite<G1, G2, GT, Scalar>, configs: seq<KeyServerConfig>, servers: seq<KeyServer>,
      keyed: seq<Server<G2>>, sealed: EncryptedObject, fullId: string, userKeys: map<ObjectId, G1>)
    requires ValidConfigs(configs) && ObjectIds(servers) == ConfigIds(configs) == ServerIds(keyed)
    requires DistinctAddresses(ConfigIds(configs)) && UserKeys(s, keyed, fullId, userKeys)
    requires SealObject.WellSized(sealed) && SealObject.WellNamed(sealed)
    requires ServiceIds(sealed.services) == ObjectIds(Weighted(configs, servers, |configs|))
    ensures Serialized(sealed).Success? && Parsed(Serialized(sealed).value).Some?
    ensures AlwaysSuffices(s, configs, keyed, Parsed(Serialized(sealed).value).value.services, fullId) <==>
            forall id :: id in ConfigIds(configs) && Weight(configs, id) > 0 ==> NormalizeAddress(id) == id
  {
    hide *;
    ParsedIsNormalized(sealed);
    ParsedServersListed(configs, servers);
    FetchedKeysSufficeExactly(s, configs, keyed, Parsed(Serialized(sealed).value).value.services, fullId, userKeys);
  }
}
