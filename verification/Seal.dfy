/** Threshold encryption end to end: packages/seal/src/encrypt.ts and decrypt.ts. */
module Seal {
  import opened Dem
  import opened Ibe
  import opened Results
  import opened Sequences
  import Shamir

  /** Everything the source draws at random during one encryption. */
  datatype Coins<!Scalar> = Coins(baseKey: ByteString, coefficients: Shamir.Randomness, scalar: Scalar)

  datatype EncryptedObject = EncryptedObject(
    packageId: string,
    id: string,
    services: seq<(ObjectId, int)>,
    threshold: int,
    encryptedShares: IbeEncryptions,
    ciphertext: Ciphertext)

  datatype Encrypted = Encrypted(sealed: EncryptedObject, key: ByteString)

  /** The cache key of a user key: the full identity and the server's object id. */
  type KeyCacheKey = (string, ObjectId)

  type KeyStore<G1> = map<KeyCacheKey, G1>

  /** createFullId, which throws on an invalid package id. */
  function CreateFullId<G1, G2, GT, Scalar>(s: Suite<G1, G2, GT, Scalar>, packageId: string, id: string)
    : Result<string, SealError>
  {
    if !s.validObjectId(packageId) then Failure(InvalidServersOrThreshold)
    else Success(s.toHex(s.fromHex(packageId) + s.fromHex(id)))
  }

  function Messages(shares: seq<Shamir.Share>): (r: seq<MessageAndIndex>)
    ensures |r| == |shares|
    ensures forall i :: 0 <= i < |r| ==> r[i] == MessageAndIndex(shares[i].share, shares[i].index)
  {
    seq(|shares|, i requires 0 <= i < |shares| => MessageAndIndex(shares[i].share, shares[i].index))
  }

  function Services(servers: seq<KeyServer>, shares: seq<Shamir.Share>): (r: seq<(ObjectId, int)>)
    requires |servers| == |shares|
    ensures |r| == |servers| && forall i :: 0 <= i < |r| ==> r[i] == (servers[i].objectId, shares[i].index)
  {
    seq(|servers|, i requires 0 <= i < |servers| => (servers[i].objectId, shares[i].index))
  }

  function Split(baseKey: ByteString, threshold: int, total: int, coefficients: Shamir.Randomness)
    : (r: Result<seq<Shamir.Share>, SealError>)
    ensures r.Success? ==> |r.value| == total
  {
    match Shamir.Split(baseKey, threshold, total, coefficients)
    case Failure(_) => Failure(SplitFailed)
    case Success(shares) =>
      Shamir.SplitSucceeds(baseKey, threshold, total, coefficients);
      Shamir.SharesUpToShape(Shamir.SamplePolynomials(baseKey, threshold - 1, coefficients), total);
      Success(shares)
  }

  function Encrypt<G1, G2, GT, Scalar>(s: Suite<G1, G2, GT, Scalar>, servers: seq<KeyServer>, threshold: int,
                                       packageId: string, id: string, input: EncryptionInput, coins: Coins<Scalar>)
    : Result<Encrypted, SealError>
    requires LawfulCiphers(s.ciphers)
  {
    if threshold <= 0 || threshold > 255 || |servers| < threshold || |servers| > 255 || !s.validObjectId(packageId)
    then Failure(InvalidServersOrThreshold)
    else
      var shares :- Split(coins.baseKey, threshold, |servers|, coins.coefficients);
      var fullId :- CreateFullId(s, packageId, id);
      var encryptedShares :- EncryptBatched(s, servers, s.fromHex(fullId), Messages(shares), coins.baseKey, threshold,
          coins.scalar);
      var demKey :- DeriveKey(s, DemKey, coins.baseKey, encryptedShares.encryptedShares, threshold, ObjectIds(servers));
      var ciphertext := Dem.Encrypt(s.ciphers, input, demKey);
      Success(Encrypted(EncryptedObject(packageId, id, Services(servers, shares), threshold, encryptedShares,
          ciphertext), demKey))
  }

  /** The indices below n of the services whose keys are in the key store. */
  function InKeyStore<G1>(fullId: string, services: seq<(ObjectId, int)>, keys: KeyStore<G1>, n: nat): (r: seq<nat>)
    requires n <= |services|
    ensures forall k :: 0 <= k < |r| ==> r[k] < n && (fullId, services[r[k]].0) in keys
    ensures forall j, k :: 0 <= j < k < |r| ==> r[j] < r[k]
  {
    if n == 0 then []
    else
      var init := InKeyStore(fullId, services, keys, n - 1);
      if (fullId, services[n - 1].0) in keys then init + [n - 1] else init
  }

  function DecryptShares<G1, G2, GT, Scalar>(s: Suite<G1, G2, GT, Scalar>, sealed: EncryptedObject, keys: KeyStore<G1>,
                                             fullId: string, nonce: G2, slots: seq<nat>)
    : (r: Result<seq<Shamir.Share>, SealError>)
    requires |sealed.encryptedShares.encryptedShares| == |sealed.services|
    requires forall k :: 0 <= k < |slots| ==>
              slots[k] < |sealed.services| && (fullId, sealed.services[slots[k]].0) in keys
  {
    if slots == [] then Success([])
    else
      var n := |slots| - 1;
      var init :- DecryptShares(s, sealed, keys, fullId, nonce, slots[..n]);
      var (objectId, index) := sealed.services[slots[n]];
      var share :- DecryptShare(s, nonce, keys[(fullId, objectId)], sealed.encryptedShares.encryptedShares[slots[n]],
                                s.fromHex(fullId), objectId, index);
      Success(init + [Shamir.Share(index, share)])
  }

  function ServiceIds(services: seq<(ObjectId, int)>): (r: seq<ObjectId>)
    ensures |r| == |services| && forall i :: 0 <= i < |r| ==> r[i] == services[i].0
  {
    Map((service: (ObjectId, int)) => service.0, services)
  }

  function Combine(shares: seq<Shamir.Share>): Result<ByteString, SealError> {
    match Shamir.Combine(shares)
    case Failure(_) => Failure(CombineFailed)
    case Success(secret) => Success(secret)
  }

  function DecryptCiphertext(c: Ciphers, key: ByteString, ciphertext: Ciphertext): Result<ByteString, SealError>
    requires LawfulCiphers(c)
  {
    match Dem.Decrypt(c, key, ciphertext)
    case Failure(e) => Failure(CiphertextRejected(e))
    case Success(m) => Success(m)
  }

  /** What decrypt does once the base key is known. */
  function DecryptWithBaseKey<G1, G2(==), GT, Scalar>(s: Suite<G1, G2, GT, Scalar>, sealed: EncryptedObject, nonce: G2,
                                                      baseKey: ByteString): Result<ByteString, SealError>
    requires LawfulCiphers(s.ciphers)
  {
    var encryptedShares := sealed.encryptedShares.encryptedShares;
    var randomnessKey :- DeriveKey(s, EncryptedRandomness, baseKey, encryptedShares, sealed.threshold,
        ServiceIds(sealed.services));
    var randomness :- DecryptRandomness(s, sealed.encryptedShares.encryptedRandomness, randomnessKey);
    if !VerifyNonce(s, nonce, randomness) then Failure(InvalidNonce)
    else
      var demKey :- DeriveKey(s, DemKey, baseKey, encryptedShares, sealed.threshold, ServiceIds(sealed.services));
      DecryptCiphertext(s.ciphers, demKey, sealed.ciphertext)
  }

  function Decrypt<G1, G2(==), GT, Scalar>(s: Suite<G1, G2, GT, Scalar>, sealed: EncryptedObject, keys: KeyStore<G1>)
    : Result<ByteString, SealError>
    requires LawfulCiphers(s.ciphers)
  {
    var fullId :- CreateFullId(s, sealed.packageId, sealed.id);
    var slots := InKeyStore(fullId, sealed.services, keys, |sealed.services|);
    if |slots| < sealed.threshold then Failure(NotEnoughShares)
    else if |sealed.encryptedShares.encryptedShares| != |sealed.services| then Failure(MismatchedShares)
    else
      match s.g2FromBytes(sealed.encryptedShares.nonce)
      case None => Failure(InvalidPoint)
      case Some(nonce) =>
        var shares :- DecryptShares(s, sealed, keys, fullId, nonce, slots);
        var baseKey :- Combine(shares);
        DecryptWithBaseKey(s, sealed, nonce, baseKey)
  }

  // ---------- Decryption inverts encryption ----------

  /** The inputs that encrypt accepts: 1 <= threshold <= servers <= 255, a valid package id and
      public keys that are points. */
  predicate Acceptable<G1, G2, GT, Scalar>(s: Suite<G1, G2, GT, Scalar>, servers: seq<KeyServer>, threshold: int,
                                           packageId: string) {
    && 1 <= threshold <= |servers| <= 255
    && s.validObjectId(packageId)
    && forall i :: 0 <= i < |servers| ==> s.g2FromBytes(servers[i].pk).Some?
  }

  function Key<G1, G2, GT, Scalar>(s: Suite<G1, G2, GT, Scalar>, server: KeyServer): G2
    requires s.g2FromBytes(server.pk).Some?
  {
    s.g2FromBytes(server.pk).value
  }

  function MaskOf<G1, G2, GT, Scalar>(s: Suite<G1, G2, GT, Scalar>, server: KeyServer, r: Scalar, fullId: string,
                                      index: int)
    : Result<ByteString, SealError>
    requires s.g2FromBytes(server.pk).Some?
  {
    Kdf(s, EncapsulatedKey(s, r, Key(s, server), s.fromHex(fullId)), s.multiplyG2(s.generator, r), s.fromHex(fullId),
        server.objectId, index)
  }

  lemma SplitShapes(baseKey: ByteString, threshold: int, total: int, coefficients: Shamir.Randomness)
    requires 1 <= threshold <= total <= 255
    ensures Shamir.Split(baseKey, threshold, total, coefficients).Success?
    ensures Split(baseKey, threshold, total, coefficients)
        == Success(Shamir.Split(baseKey, threshold, total, coefficients).value)
    ensures var shares := Split(baseKey, threshold, total, coefficients).value;
            && |shares| == total
            && forall i :: 0 <= i < total ==> shares[i].index == i + 1 && |shares[i].share| == |baseKey|
  {
    Shamir.SplitSucceeds(baseKey, threshold, total, coefficients);
    Shamir.SharesUpToShape(Shamir.SamplePolynomials(baseKey, threshold - 1, coefficients), total);
  }

  ghost predicate SharesOf(shares: seq<Shamir.Share>, n: nat) {
    |shares| == n && forall i :: 0 <= i < n ==> |shares[i].share| == 32 && shares[i].index == i + 1
  }

  /** Share i is encrypted under the mask of server i. */
  ghost predicate SharesEncrypted<G1, G2, GT, Scalar>(s: Suite<G1, G2, GT, Scalar>, servers: seq<KeyServer>,
                                                      fullId: string,
                                                      shares: seq<Shamir.Share>, r: Scalar, encrypted: seq<ByteString>)
    requires forall i :: 0 <= i < |servers| ==> s.g2FromBytes(servers[i].pk).Some?
    requires |shares| == |servers|
  {
    && |encrypted| == |servers|
    && forall i :: 0 <= i < |servers| ==>
                     && MaskOf(s, servers[i], r, fullId, shares[i].index).Success?
                     && |MaskOf(s, servers[i], r, fullId, shares[i].index).value| == 32
                     && encrypted[i] == XorUnchecked(shares[i].share,
                         MaskOf(s, servers[i], r, fullId, shares[i].index).value)
  }

  /** The encrypted randomness is the scalar under the key that the base key yields. */
  ghost predicate RandomnessEncrypted<G1, G2, GT, Scalar>(s: Suite<G1, G2, GT, Scalar>, servers: seq<KeyServer>,
                                                          threshold: int,
                                                          baseKey: ByteString, r: Scalar, e: IbeEncryptions)
  {
    var randomnessKey := DeriveKey(s, EncryptedRandomness, baseKey, e.encryptedShares, threshold, ObjectIds(servers));
    && randomnessKey.Success? && |randomnessKey.value| == |s.scalarToBytes(r)|
    && e.encryptedRandomness == XorUnchecked(randomnessKey.value, s.scalarToBytes(r))
  }

  lemma BatchShapes<G1(!new), G2(!new), GT, Scalar(!new)>(
      s: Suite<G1, G2, GT, Scalar>, servers: seq<KeyServer>, fullId: string, shares: seq<Shamir.Share>,
          baseKey: ByteString,
      threshold: int, r: Scalar)
    requires Lawful(s) && 1 <= threshold <= |servers| <= 255 && SharesOf(shares, |servers|)
    requires forall i :: 0 <= i < |servers| ==> s.g2FromBytes(servers[i].pk).Some?
    ensures var e := EncryptBatched(s, servers, s.fromHex(fullId), Messages(shares), baseKey, threshold, r);
            && e.Success?
            && e.value.nonce == s.g2ToBytes(s.multiplyG2(s.generator, r))
            && SharesEncrypted(s, servers, fullId, shares, r, e.value.encryptedShares)
            && RandomnessEncrypted(s, servers, threshold, baseKey, r, e.value)
  {
    assert |s.scalarToBytes(r)| == 32;
    hide Xor, XorUnchecked, Kdf, MaskOf, EncryptShares, PublicKeys, DeriveKey, Lawful, SharesEncrypted;
    var publicKeys := PublicKeys(s, servers).value;
    EncryptedBatch(s, servers, publicKeys, fullId, shares, r);
    var nonce := s.multiplyG2(s.generator, r);
    var encrypted := EncryptShares(s, r, nonce, publicKeys, ObjectIds(servers), s.fromHex(fullId),
        Messages(shares)).value;
    DerivedKeyLength(s, EncryptedRandomness, baseKey, encrypted, threshold, ObjectIds(servers));
  }

  lemma EncryptedBatch<G1(!new), G2(!new), GT, Scalar(!new)>(
      s: Suite<G1, G2, GT, Scalar>, servers: seq<KeyServer>, publicKeys: seq<G2>, fullId: string,
          shares: seq<Shamir.Share>, r: Scalar)
    requires Lawful(s) && |servers| <= 255 && SharesOf(shares, |servers|)
    requires forall i :: 0 <= i < |servers| ==> s.g2FromBytes(servers[i].pk).Some?
    requires PublicKeys(s, servers) == Success(publicKeys)
    ensures var e := EncryptShares(s, r, s.multiplyG2(s.generator, r), publicKeys, ObjectIds(servers),
        s.fromHex(fullId), Messages(shares));
            e.Success? && SharesEncrypted(s, servers, fullId, shares, r, e.value)
  {
    hide *;
    SharesAreBytes(shares, |servers|);
    var nonce := s.multiplyG2(s.generator, r);
    var ids, msgs := ObjectIds(servers), Messages(shares);
    EncryptedShare(s, r, nonce, publicKeys, ids, s.fromHex(fullId), msgs);
    var e := EncryptShares(s, r, nonce, publicKeys, ids, s.fromHex(fullId), msgs).value;
    forall i | 0 <= i < |servers|
      ensures MaskOf(s, servers[i], r, fullId, shares[i].index) ==
              Kdf(s, EncapsulatedKey(s, r, publicKeys[i], s.fromHex(fullId)), nonce, s.fromHex(fullId), ids[i],
                  msgs[i].index)
    {
      MaskOfUnfolds(s, servers[i], publicKeys[i], r, fullId, shares[i].index);
    }
    SharesEncryptedIntro(s, servers, fullId, shares, r, e);
  }

  lemma SharesAreBytes(shares: seq<Shamir.Share>, n: nat)
    requires SharesOf(shares, n) && n <= 255
    ensures |shares| == n && forall i :: 0 <= i < n ==> |shares[i].share| == 32 && 0 <= shares[i].index <= 255
  {
  }

  lemma MaskOfUnfolds<G1, G2, GT, Scalar>(s: Suite<G1, G2, GT, Scalar>, server: KeyServer, pk: G2, r: Scalar,
                                          fullId: string, index: int)
    requires s.g2FromBytes(server.pk) == Some(pk)
    ensures MaskOf(s, server, r, fullId, index) ==
            Kdf(s, EncapsulatedKey(s, r, pk, s.fromHex(fullId)), s.multiplyG2(s.generator, r), s.fromHex(fullId),
                server.objectId, index)
  {
    hide Kdf, EncapsulatedKey;
  }

  lemma SharesEncryptedIntro<G1, G2, GT, Scalar>(s: Suite<G1, G2, GT, Scalar>, servers: seq<KeyServer>, fullId: string,
                                                 shares: seq<Shamir.Share>, r: Scalar, e: seq<ByteString>)
    requires forall i :: 0 <= i < |servers| ==> s.g2FromBytes(servers[i].pk).Some?
    requires |shares| == |servers| == |e|
    requires forall i :: 0 <= i < |servers| ==>
                     && MaskOf(s, servers[i], r, fullId, shares[i].index).Success?
                     && |MaskOf(s, servers[i], r, fullId, shares[i].index).value| == 32
                     && e[i] == XorUnchecked(shares[i].share, MaskOf(s, servers[i], r, fullId, shares[i].index).value)
    ensures SharesEncrypted(s, servers, fullId, shares, r, e)
  {
    hide XorUnchecked, MaskOf;
  }

  lemma DerivedKeyLength<G1(!new), G2(!new), GT, Scalar(!new)>(
      s: Suite<G1, G2, GT, Scalar>, purpose: KeyPurpose, baseKey: ByteString, shares: seq<ByteString>, threshold: int,
          ids: seq<ObjectId>)
    requires Lawful(s) && 1 <= threshold <= 255
    ensures DeriveKey(s, purpose, baseKey, shares, threshold, ids).Success?
    ensures |DeriveKey(s, purpose, baseKey, shares, threshold, ids).value| == 32
  {
  }

  /** The pieces of an encryption of acceptable inputs with a 32-byte base key. */
  lemma EncryptShapes<G1(!new), G2(!new), GT, Scalar(!new)>(
      s: Suite<G1, G2, GT, Scalar>, servers: seq<KeyServer>, threshold: int, packageId: string, id: string,
      input: EncryptionInput, coins: Coins<Scalar>, fullId: string, shares: seq<Shamir.Share>)
    requires Lawful(s) && Acceptable(s, servers, threshold, packageId) && |coins.baseKey| == 32
    requires CreateFullId(s, packageId, id) == Success(fullId)
    requires Split(coins.baseKey, threshold, |servers|, coins.coefficients) == Success(shares)
    ensures SharesOf(shares, |servers|)
    ensures Encrypt(s, servers, threshold, packageId, id, input, coins).Success?
    ensures var sealed := Encrypt(s, servers, threshold, packageId, id, input, coins).value.sealed;
            var demKey := DeriveKey(s, DemKey, coins.baseKey, sealed.encryptedShares.encryptedShares, threshold,
                ObjectIds(servers));
            && sealed.packageId == packageId && sealed.id == id && sealed.threshold == threshold
            && sealed.services == Services(servers, shares)
            && sealed.encryptedShares.nonce == s.g2ToBytes(s.multiplyG2(s.generator, coins.scalar))
            && SharesEncrypted(s, servers, fullId, shares, coins.scalar, sealed.encryptedShares.encryptedShares)
            && RandomnessEncrypted(s, servers, threshold, coins.baseKey, coins.scalar, sealed.encryptedShares)
            && demKey.Success? && sealed.ciphertext == Dem.Encrypt(s.ciphers, input, demKey.value)
  {
    SplitShapes(coins.baseKey, threshold, |servers|, coins.coefficients);
    BatchShapes(s, servers, fullId, shares, coins.baseKey, threshold, coins.scalar);
    var e := EncryptBatched(s, servers, s.fromHex(fullId), Messages(shares), coins.baseKey, threshold,
        coins.scalar).value;
    DerivedKeyLength(s, DemKey, coins.baseKey, e.encryptedShares, threshold, ObjectIds(servers));
    assert LawfulCiphers(s.ciphers);
    hide Lawful, LawfulCiphers, Split, SharesEncrypted, RandomnessEncrypted, Dem.Encrypt, EncryptBatched, DeriveKey;
  }

  // ---------- What decrypt finds ----------

  /** Every key held for a service of this object passes the verification equation of that service. */
  ghost predicate KeysVerified<G1, G2, GT, Scalar>(s: Suite<G1, G2, GT, Scalar>, servers: seq<KeyServer>,
                                                   fullId: string,
                                                   keys: KeyStore<G1>)
    requires forall i :: 0 <= i < |servers| ==> s.g2FromBytes(servers[i].pk).Some?
  {
    forall i :: 0 <= i < |servers| && (fullId, servers[i].objectId) in keys ==>
                  VerifyUserSecretKey(s, keys[(fullId, servers[i].objectId)], fullId, Key(s, servers[i]))
  }

  /** The shares in the given slots, picked out of all shares. */
  function Pick(shares: seq<Shamir.Share>, slots: seq<nat>): (r: seq<Shamir.Share>)
    requires forall k :: 0 <= k < |slots| ==> slots[k] < |shares|
    ensures |r| == |slots| && forall k :: 0 <= k < |r| ==> r[k] == shares[slots[k]]
  {
    seq(|slots|, k requires 0 <= k < |slots| => shares[slots[k]])
  }

  /** Decrypting the slots whose verified keys are held gives the split shares of those slots. */
  lemma {:induction false} DecryptSharesPicks<G1(!new), G2(!new), GT, Scalar(!new)>(
      s: Suite<G1, G2, GT, Scalar>, servers: seq<KeyServer>, fullId: string, shares: seq<Shamir.Share>, r: Scalar,
      sealed: EncryptedObject, keys: KeyStore<G1>, slots: seq<nat>)
    requires Lawful(s) && SharesOf(shares, |servers|)
    requires forall i :: 0 <= i < |servers| ==> s.g2FromBytes(servers[i].pk).Some?
    requires sealed.services == Services(servers, shares)
    requires SharesEncrypted(s, servers, fullId, shares, r, sealed.encryptedShares.encryptedShares)
    requires KeysVerified(s, servers, fullId, keys)
    requires forall k :: 0 <= k < |slots| ==> slots[k] < |servers| && (fullId, servers[slots[k]].objectId) in keys
    ensures DecryptShares(s, sealed, keys, fullId, s.multiplyG2(s.generator, r), slots) == Success(Pick(shares, slots))
    decreases |slots|
  {
    hide XorUnchecked, DecryptShare, VerifyUserSecretKey, Kdf, EncapsulatedKey, LawfulCiphers, Lawful;
    if slots != [] {
      var n := |slots| - 1;
      DecryptSharesPicks(s, servers, fullId, shares, r, sealed, keys, slots[..n]);
      var i := slots[n];
      DecryptShareInverts(s, r, Key(s, servers[i]), keys[(fullId, servers[i].objectId)], fullId, servers[i].objectId,
                          shares[i].index, shares[i].share, MaskOf(s, servers[i], r, fullId, shares[i].index).value);
      assert Pick(shares, slots) == Pick(shares, slots[..n]) + [shares[i]];
    }
  }

  /** Picking increasing slots of a split gives distinct shares of it. */
  lemma PickedSharesAreEnough(baseKey: ByteString, threshold: int, total: int, coefficients: Shamir.Randomness,
                              shares: seq<Shamir.Share>, slots: seq<nat>)
    requires 1 <= threshold <= total <= 255
    requires Split(baseKey, threshold, total, coefficients) == Success(shares)
    requires |slots| >= threshold
    requires forall k :: 0 <= k < |slots| ==> slots[k] < total
    requires forall j, k :: 0 <= j < k < |slots| ==> slots[j] < slots[k]
    ensures Combine(Pick(shares, slots)) == Success(baseKey)
  {
    SplitShapes(baseKey, threshold, total, coefficients);
    Shamir.SplitSucceeds(baseKey, threshold, total, coefficients);
    hide Shamir.Split, Split;
    assert Shamir.Split(baseKey, threshold, total, coefficients) == Success(shares);
    var picked := Pick(shares, slots);
    forall j, k | 0 <= j < k < |picked| ensures picked[j] != picked[k] {
      assert picked[j].index == slots[j] + 1 && picked[k].index == slots[k] + 1;
    }
    Shamir.CombineRecoversSecret(picked, baseKey, threshold, total, coefficients);
  }

  /** With the base key, the nonce checks out and the ciphertext opens. */
  lemma BaseKeyOpens<G1(!new), G2(!new), GT, Scalar(!new)>(
      s: Suite<G1, G2, GT, Scalar>, servers: seq<KeyServer>, shares: seq<Shamir.Share>, sealed: EncryptedObject,
      input: EncryptionInput, coins: Coins<Scalar>)
    requires Lawful(s) && |shares| == |servers|
    requires sealed.services == Services(servers, shares)
    requires RandomnessEncrypted(s, servers, sealed.threshold, coins.baseKey, coins.scalar, sealed.encryptedShares)
    requires var demKey := DeriveKey(s, DemKey, coins.baseKey, sealed.encryptedShares.encryptedShares, sealed.threshold,
        ObjectIds(servers));
             demKey.Success? && sealed.ciphertext == Dem.Encrypt(s.ciphers, input, demKey.value)
    ensures DecryptWithBaseKey(s, sealed, s.multiplyG2(s.generator, coins.scalar), coins.baseKey)
        == Success(input.plaintext)
  {
    assert ServiceIds(sealed.services) == ObjectIds(servers);
    var shareBytes := sealed.encryptedShares.encryptedShares;
    var randomnessKey := DeriveKey(s, EncryptedRandomness, coins.baseKey, shareBytes, sealed.threshold,
        ObjectIds(servers)).value;
    var demKey := DeriveKey(s, DemKey, coins.baseKey, shareBytes, sealed.threshold, ObjectIds(servers)).value;
    XorBytesTwice(randomnessKey, s.scalarToBytes(coins.scalar));
    assert s.scalarFromBytes(s.scalarToBytes(coins.scalar)) == coins.scalar;
    assert LawfulCiphers(s.ciphers);
    DecryptInvertsEncrypt(s.ciphers, demKey, input);
    hide Lawful, LawfulCiphers, Dem.Encrypt, Dem.Decrypt, DeriveKey, XorUnchecked;
  }

  /** The number of services of the object whose keys are held. */
  function SlotsHeld<G1>(fullId: string, services: seq<(ObjectId, int)>, keys: KeyStore<G1>): nat {
    |InKeyStore(fullId, services, keys, |services|)|
  }

  /** The steps of a decryption whose parts all succeed. */
  lemma DecryptInSteps<G1(!new), G2(!new), GT, Scalar(!new)>(
      s: Suite<G1, G2, GT, Scalar>, sealed: EncryptedObject, keys: KeyStore<G1>, fullId: string, nonce: G2,
      shares: seq<Shamir.Share>, baseKey: ByteString, plaintext: ByteString)
    requires LawfulCiphers(s.ciphers) && CreateFullId(s, sealed.packageId, sealed.id) == Success(fullId)
    requires |sealed.encryptedShares.encryptedShares| == |sealed.services|
    requires s.g2FromBytes(sealed.encryptedShares.nonce) == Some(nonce)
    requires var slots := InKeyStore(fullId, sealed.services, keys, |sealed.services|);
             |slots| >= sealed.threshold ==>
                       && DecryptShares(s, sealed, keys, fullId, nonce, slots) == Success(shares)
                       && Combine(shares) == Success(baseKey)
    requires DecryptWithBaseKey(s, sealed, nonce, baseKey) == Success(plaintext)
    ensures Decrypt(s, sealed, keys) ==
            if SlotsHeld(fullId, sealed.services, keys) < sealed.threshold then Failure(NotEnoughShares)
                else Success(plaintext)
  {
    hide LawfulCiphers, CreateFullId, InKeyStore, DecryptShares, DecryptWithBaseKey, Combine;
  }

  /** Decryption inverts encryption, for every plaintext, additional data, list of servers (repeats
      allowed), threshold and randomness: with verified keys for at least the threshold of slots the
      plaintext comes back, and with fewer the only outcome is the request for more keys. */
  lemma DecryptInvertsEncryption<G1(!new), G2(!new), GT, Scalar(!new)>(
      s: Suite<G1, G2, GT, Scalar>, servers: seq<KeyServer>, threshold: int, packageId: string, id: string,
      input: EncryptionInput, coins: Coins<Scalar>, keys: KeyStore<G1>)
    requires Lawful(s) && Acceptable(s, servers, threshold, packageId) && |coins.baseKey| == 32
    requires KeysVerified(s, servers, CreateFullId(s, packageId, id).value, keys)
    ensures Encrypt(s, servers, threshold, packageId, id, input, coins).Success?
    ensures var sealed := Encrypt(s, servers, threshold, packageId, id, input, coins).value.sealed;
            Decrypt(s, sealed, keys) ==
            if SlotsHeld(CreateFullId(s, packageId, id).value, sealed.services, keys) < threshold
                then Failure(NotEnoughShares)
            else Success(input.plaintext)
  {
    var fullId := CreateFullId(s, packageId, id).value;
    var nonce := s.multiplyG2(s.generator, coins.scalar);
    assert LawfulCiphers(s.ciphers) && s.g2FromBytes(s.g2ToBytes(nonce)) == Some(nonce);
    assert CreateFullId(s, packageId, id) == Success(fullId);
    hide Lawful, LawfulCiphers, Split, Encrypt, RandomnessEncrypted, KeysVerified, DecryptShares, DecryptWithBaseKey,
        Combine, Dem.Encrypt;
    hide CreateFullId, InKeyStore, DeriveKey, SharesEncrypted, Decrypt, SlotsHeld;
    SplitShapes(coins.baseKey, threshold, |servers|, coins.coefficients);
    var shares := Split(coins.baseKey, threshold, |servers|, coins.coefficients).value;
    EncryptShapes(s, servers, threshold, packageId, id, input, coins, fullId, shares);
    var sealed := Encrypt(s, servers, threshold, packageId, id, input, coins).value.sealed;
    var slots := InKeyStore(fullId, sealed.services, keys, |sealed.services|);
    BaseKeyOpens(s, servers, shares, sealed, input, coins);
    DecryptSharesPicks(s, servers, fullId, shares, coins.scalar, sealed, keys, slots);
    if |slots| >= threshold {
      PickedSharesAreEnough(coins.baseKey, threshold, |servers|, coins.coefficients, shares, slots);
    }
    DecryptInSteps(s, sealed, keys, fullId, nonce, Pick(shares, slots), coins.baseKey, input.plaintext);
  }

  /** Encryption succeeds exactly on acceptable inputs, given the 32-byte base key that is always drawn. */
  lemma EncryptSucceeds<G1(!new), G2(!new), GT, Scalar(!new)>(
      s: Suite<G1, G2, GT, Scalar>, servers: seq<KeyServer>, threshold: int, packageId: string, id: string,
      input: EncryptionInput, coins: Coins<Scalar>)
    requires Lawful(s) && |coins.baseKey| == 32
    ensures Encrypt(s, servers, threshold, packageId, id, input, coins).Success? <==>
        Acceptable(s, servers, threshold, packageId)
  {
    hide Split, Dem.Encrypt, EncryptShares, DeriveKey;
    if Acceptable(s, servers, threshold, packageId) {
      var fullId := CreateFullId(s, packageId, id).value;
      SplitShapes(coins.baseKey, threshold, |servers|, coins.coefficients);
      EncryptShapes(s, servers, threshold, packageId, id, input, coins, fullId,
                    Split(coins.baseKey, threshold, |servers|, coins.coefficients).value);
    }
  }
}
