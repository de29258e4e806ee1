/** What an encrypted object of packages/seal/src consists of, byte by byte, and what decryption checks
    before it opens one: encrypt.ts, decrypt.ts, ibe.ts, kdf.ts and utils.ts put together. */
module SealLayout {
  import opened Bytes
  import opened Dem
  import opened Ibe
  import opened Results
  import opened Seal
  import opened Sequences
  import Shamir

  /** Bytes survive their hexadecimal text, as they do in the codec of @mysten/utils. */
  ghost predicate HexLaw<G1, G2, GT, Scalar>(s: Suite<G1, G2, GT, Scalar>) {
    forall bytes :: s.fromHex(s.toHex(bytes)) == bytes
  }

  // ---------- The identity ----------

  /** The full identity is the text of the package's bytes followed by the identity's bytes. */
  lemma FullIdIsBytes<G1, G2, GT, Scalar>(s: Suite<G1, G2, GT, Scalar>, packageId: string, id: string)
    requires HexLaw(s)
    ensures var fullId := CreateFullId(s, packageId, id);
            && (fullId.Success? <==> s.validObjectId(packageId))
            && (fullId.Success? ==> s.fromHex(fullId.value) == s.fromHex(packageId) + s.fromHex(id))
  {
  }

  /** For package ids of 32 bytes, two full identities agree exactly when the bytes of the packages and
      those of the identities do. */
  lemma FullIdsAgreeExactly<G1, G2, GT, Scalar>(s: Suite<G1, G2, GT, Scalar>, packageId: string, id: string,
                                                otherPackage: string, otherId: string)
    requires HexLaw(s) && s.validObjectId(packageId) && s.validObjectId(otherPackage)
    requires |s.fromHex(packageId)| == |s.fromHex(otherPackage)| == 32
    ensures CreateFullId(s, packageId, id) == CreateFullId(s, otherPackage, otherId) <==>
            s.fromHex(packageId) == s.fromHex(otherPackage) && s.fromHex(id) == s.fromHex(otherId)
  {
    var a, b := CreateFullId(s, packageId, id), CreateFullId(s, otherPackage, otherId);
    if a == b {
      assert s.fromHex(a.value) == s.fromHex(b.value);
      Appended(s.fromHex(packageId), s.fromHex(id), s.fromHex(otherPackage), s.fromHex(otherId));
    }
  }

  /** The services whose keys are held are counted, each place of a repeated server by itself. */
  lemma {:induction false} SlotsAreCounted<G1>(fullId: string, services: seq<(ObjectId, int)>, keys: KeyStore<G1>,
                                              n: nat)
    requires n <= |services|
    ensures |InKeyStore(fullId, services, keys, n)| == |set i | 0 <= i < n && (fullId, services[i].0) in keys|
    decreases n
  {
    var held := set i | 0 <= i < n && (fullId, services[i].0) in keys;
    if n > 0 {
      SlotsAreCounted(fullId, services, keys, n - 1);
      var before := set i | 0 <= i < n - 1 && (fullId, services[i].0) in keys;
      if (fullId, services[n - 1].0) in keys {
        assert held == before + {n - 1};
      } else {
        assert held == before;
      }
    } else {
      assert held == {};
    }
  }

  /** Keys held only for other packages or identities open nothing. */
  lemma OtherIdentityFallsShort<G1, G2, GT, Scalar>(s: Suite<G1, G2, GT, Scalar>, sealed: EncryptedObject,
                                                    keys: KeyStore<G1>)
    requires LawfulCiphers(s.ciphers) && HexLaw(s) && s.validObjectId(sealed.packageId) && sealed.threshold >= 1
    requires |s.fromHex(sealed.packageId)| == 32
    requires forall key :: key in keys ==> exists packageId, id ::
        && s.validObjectId(packageId) && |s.fromHex(packageId)| == 32
        && CreateFullId(s, packageId, id) == Success(key.0)
        && (s.fromHex(packageId) != s.fromHex(sealed.packageId) || s.fromHex(id) != s.fromHex(sealed.id))
    ensures Seal.Decrypt(s, sealed, keys) == Failure(NotEnoughShares)
  {
    hide LawfulCiphers, HexLaw, CreateFullId, InKeyStore, DecryptShares, DecryptWithBaseKey, Combine;
    FullIdIsBytes(s, sealed.packageId, sealed.id);
    var fullId := CreateFullId(s, sealed.packageId, sealed.id).value;
    forall key | key in keys ensures key.0 != fullId {
      var packageId, id :|
        && s.validObjectId(packageId) && |s.fromHex(packageId)| == 32
        && CreateFullId(s, packageId, id) == Success(key.0)
        && (s.fromHex(packageId) != s.fromHex(sealed.packageId) || s.fromHex(id) != s.fromHex(sealed.id));
      FullIdsAgreeExactly(s, packageId, id, sealed.packageId, sealed.id);
    }
    SlotsAreCounted(fullId, sealed.services, keys, |sealed.services|);
    NoneHeld(fullId, sealed.services, keys);
  }

  lemma NoneHeld<G1>(fullId: string, services: seq<(ObjectId, int)>, keys: KeyStore<G1>)
    requires forall key :: key in keys ==> key.0 != fullId
    ensures |set i | 0 <= i < |services| && (fullId, services[i].0) in keys| == 0
  {
    assert (set i | 0 <= i < |services| && (fullId, services[i].0) in keys) <= {};
  }

  // ---------- The bytes of an object ----------

  /** The mask of one share: the digest of a tag, the encapsulated key, the nonce, the point of the
      identity, the server's id and the index of the share. */
  ghost function ShareMask<G1, G2, GT, Scalar>(s: Suite<G1, G2, GT, Scalar>, identity: ByteString, pk: G2, r: Scalar,
                                               objectId: ObjectId, index: nat): ByteString
  {
    var point := s.hashToCurve(Ascii("SUI-SEAL-IBE-BLS12381-00") + identity);
    s.sha3(Ascii("SUI-SEAL-IBE-BLS12381-H2-00") + s.gtToBytes(s.pairing(s.multiplyG1(point, r), pk))
           + s.g2ToBytes(s.multiplyG2(s.generator, r)) + s.g1ToBytes(point) + s.fromHex(objectId) + [ToByte(index)])
  }

  /** The digest that the randomness and the data are encrypted under: of a tag, the base key, the
      purpose (0 for the randomness, 1 for the data), the threshold, all encrypted shares and the ids of
      all servers, in order. */
  ghost function ObjectKey<G1, G2, GT, Scalar>(s: Suite<G1, G2, GT, Scalar>, baseKey: ByteString, purpose: bv8,
                                               threshold: nat, shares: seq<ByteString>, servers: seq<KeyServer>)
    : ByteString
  {
    s.sha3(Ascii("SUI-SEAL-IBE-BLS12381-H3-00") + baseKey + [purpose] + [ToByte(threshold)] + Concatenate(shares)
           + Concatenate(Map((server: KeyServer) => s.fromHex(server.objectId), servers)))
  }

  /** Two byte strings of one length, combined byte by byte. */
  ghost predicate IsXor(r: ByteString, a: ByteString, b: ByteString) {
    |r| == |a| == |b| && forall k :: 0 <= k < |r| ==> r[k] == a[k] ^ b[k]
  }

  lemma XorIsXor(a: ByteString, b: ByteString)
    requires |a| == |b|
    ensures IsXor(XorUnchecked(a, b), a, b)
  {
  }

  lemma DeriveKeyIs<G1, G2, GT, Scalar>(s: Suite<G1, G2, GT, Scalar>, purpose: KeyPurpose, baseKey: ByteString,
                                        shares: seq<ByteString>, threshold: int, servers: seq<KeyServer>)
    requires 1 <= threshold <= 255
    ensures DeriveKey(s, purpose, baseKey, shares, threshold, ObjectIds(servers))
            == Success(ObjectKey(s, baseKey, if purpose.DemKey? then 1 else 0, threshold, shares, servers))
  {
    hide Ascii, ToByte, Concatenate;
    assert HexBytes(s, ObjectIds(servers)) == Map((server: KeyServer) => s.fromHex(server.objectId), servers);
  }

  lemma MaskIs<G1, G2, GT, Scalar>(s: Suite<G1, G2, GT, Scalar>, server: KeyServer, r: Scalar, fullId: string,
                                   index: int)
    requires s.g2FromBytes(server.pk).Some? && 0 <= index <= 255
    ensures MaskOf(s, server, r, fullId, index)
            == Success(ShareMask(s, s.fromHex(fullId), s.g2FromBytes(server.pk).value, r, server.objectId, index))
  {
    hide Ascii, ToByte;
  }

  /** Everything that encrypt writes into an object. */
  ghost predicate LaidOut<G1(!new), G2(!new), GT, Scalar(!new)>(
      s: Suite<G1, G2, GT, Scalar>, servers: seq<KeyServer>, threshold: int, packageId: string, id: string,
      input: EncryptionInput, coins: Coins<Scalar>, shares: seq<Shamir.Share>, encrypted: Encrypted)
    requires Acceptable(s, servers, threshold, packageId)
  {
    var (sealed, identity) := (encrypted.sealed, s.fromHex(packageId) + s.fromHex(id));
    var ibe := sealed.encryptedShares;
    && sealed.packageId == packageId && sealed.id == id && sealed.threshold == threshold
    && |sealed.services| == |servers| == |ibe.encryptedShares| == |shares|
    && (forall i :: 0 <= i < |servers| ==> sealed.services[i] == (servers[i].objectId, i + 1))
    && ibe.nonce == s.g2ToBytes(s.multiplyG2(s.generator, coins.scalar))
    && (forall i :: 0 <= i < |servers| ==>
          IsXor(ibe.encryptedShares[i], shares[i].share,
                ShareMask(s, identity, s.g2FromBytes(servers[i].pk).value, coins.scalar, servers[i].objectId, i + 1)))
    && IsXor(ibe.encryptedRandomness, s.scalarToBytes(coins.scalar),
             ObjectKey(s, coins.baseKey, 0, threshold, ibe.encryptedShares, servers))
    && encrypted.key == ObjectKey(s, coins.baseKey, 1, threshold, ibe.encryptedShares, servers)
    && Encapsulates(s.ciphers, encrypted.key, input, sealed.ciphertext)
  }

  /** An encryption of acceptable inputs has exactly this layout: share i of the base key, masked for
      server i under the identity of the package and the id; the randomness and the data under keys that
      depend on the base key, the threshold, all encrypted shares and all servers; and the key that is
      returned is the one of the data. */
  lemma EncryptionIsLaidOut<G1(!new), G2(!new), GT, Scalar(!new)>(
      s: Suite<G1, G2, GT, Scalar>, servers: seq<KeyServer>, threshold: int, packageId: string, id: string,
      input: EncryptionInput, coins: Coins<Scalar>, shares: seq<Shamir.Share>)
    requires Lawful(s) && HexLaw(s) && Acceptable(s, servers, threshold, packageId) && |coins.baseKey| == 32
    requires Shamir.Split(coins.baseKey, threshold, |servers|, coins.coefficients) == Success(shares)
    ensures Seal.Encrypt(s, servers, threshold, packageId, id, input, coins).Success?
    ensures LaidOut(s, servers, threshold, packageId, id, input, coins, shares,
                    Seal.Encrypt(s, servers, threshold, packageId, id, input, coins).value)
  {
    FullIdIsBytes(s, packageId, id);
    var fullId := CreateFullId(s, packageId, id).value;
    SplitShapes(coins.baseKey, threshold, |servers|, coins.coefficients);
    hide Lawful, HexLaw, CreateFullId, Split, Shamir.Split;
    EncryptShapes(s, servers, threshold, packageId, id, input, coins, fullId, shares);
    var encrypted := Seal.Encrypt(s, servers, threshold, packageId, id, input, coins).value;
    KeyIsReturned(s, servers, threshold, packageId, id, input, coins);
    hide Seal.Encrypt;
    PartsAreLaidOut(s, servers, threshold, packageId, id, input, coins, fullId, shares, encrypted);
  }

  lemma KeyIsReturned<G1(!new), G2(!new), GT, Scalar(!new)>(
      s: Suite<G1, G2, GT, Scalar>, servers: seq<KeyServer>, threshold: int, packageId: string, id: string,
      input: EncryptionInput, coins: Coins<Scalar>)
    requires LawfulCiphers(s.ciphers) && Seal.Encrypt(s, servers, threshold, packageId, id, input, coins).Success?
    ensures var encrypted := Seal.Encrypt(s, servers, threshold, packageId, id, input, coins).value;
            DeriveKey(s, DemKey, coins.baseKey, encrypted.sealed.encryptedShares.encryptedShares, threshold,
                      ObjectIds(servers)) == Success(encrypted.key)
  {
    hide LawfulCiphers, CreateFullId, Split, EncryptBatched, DeriveKey, Dem.Encrypt;
  }

  lemma PartsAreLaidOut<G1(!new), G2(!new), GT, Scalar(!new)>(
      s: Suite<G1, G2, GT, Scalar>, servers: seq<KeyServer>, threshold: int, packageId: string, id: string,
      input: EncryptionInput, coins: Coins<Scalar>, fullId: string, shares: seq<Shamir.Share>, encrypted: Encrypted)
    requires LawfulCiphers(s.ciphers) && Acceptable(s, servers, threshold, packageId)
    requires s.fromHex(fullId) == s.fromHex(packageId) + s.fromHex(id) && SharesOf(shares, |servers|)
    requires |s.scalarToBytes(coins.scalar)| == 32
    requires var sealed := encrypted.sealed;
             && sealed.packageId == packageId && sealed.id == id && sealed.threshold == threshold
             && sealed.services == Services(servers, shares)
             && sealed.encryptedShares.nonce == s.g2ToBytes(s.multiplyG2(s.generator, coins.scalar))
             && SharesEncrypted(s, servers, fullId, shares, coins.scalar, sealed.encryptedShares.encryptedShares)
             && RandomnessEncrypted(s, servers, threshold, coins.baseKey, coins.scalar, sealed.encryptedShares)
             && DeriveKey(s, DemKey, coins.baseKey, sealed.encryptedShares.encryptedShares, threshold,
                          ObjectIds(servers)) == Success(encrypted.key)
             && sealed.ciphertext == Dem.Encrypt(s.ciphers, input, encrypted.key)
    ensures LaidOut(s, servers, threshold, packageId, id, input, coins, shares, encrypted)
  {
    var (sealed, identity) := (encrypted.sealed, s.fromHex(packageId) + s.fromHex(id));
    var parts := sealed.encryptedShares.encryptedShares;
    DeriveKeyIs(s, EncryptedRandomness, coins.baseKey, parts, threshold, servers);
    DeriveKeyIs(s, DemKey, coins.baseKey, parts, threshold, servers);
    EncryptEncapsulates(s.ciphers, encrypted.key, input);
    var randomnessKey := ObjectKey(s, coins.baseKey, 0, threshold, parts, servers);
    hide LawfulCiphers, DeriveKey, ObjectKey, ShareMask, MaskOf, XorUnchecked, Dem.Encrypt, Encapsulates;
    XorIsXor(randomnessKey, s.scalarToBytes(coins.scalar));
    XorSwaps(sealed.encryptedShares.encryptedRandomness, randomnessKey, s.scalarToBytes(coins.scalar));
    forall i | 0 <= i < |servers|
      ensures IsXor(parts[i], shares[i].share,
                ShareMask(s, identity, s.g2FromBytes(servers[i].pk).value, coins.scalar, servers[i].objectId, i + 1))
    {
      MaskIs(s, servers[i], coins.scalar, fullId, i + 1);
      XorIsXor(shares[i].share, MaskOf(s, servers[i], coins.scalar, fullId, i + 1).value);
    }
    hide IsXor;
  }

  lemma XorSwaps(r: ByteString, a: ByteString, b: ByteString)
    requires IsXor(r, a, b)
    ensures IsXor(r, b, a)
  {
  }

  // ---------- What decrypt checks ----------

  /** Decryption opens an object only if keys for at least the threshold of its services are held, it
      has one encrypted share for each service, its nonce is a point, its threshold is from 1 to 255, and
      that point is the generator multiplied by some randomness, the one found inside; otherwise it fails,
      for the first reason of these. */
  lemma DecryptionChecks<G1, G2, GT, Scalar(!new)>(s: Suite<G1, G2, GT, Scalar>, sealed: EncryptedObject,
                                                   keys: KeyStore<G1>, fullId: string)
    requires LawfulCiphers(s.ciphers) && CreateFullId(s, sealed.packageId, sealed.id) == Success(fullId)
    ensures var (r, ibe) := (Seal.Decrypt(s, sealed, keys), sealed.encryptedShares);
            var held := |set i | 0 <= i < |sealed.services| && (fullId, sealed.services[i].0) in keys|;
            && (r == Failure(NotEnoughShares) <==> held < sealed.threshold)
            && (held >= sealed.threshold && |ibe.encryptedShares| != |sealed.services| ==>
                  r == Failure(MismatchedShares))
            && (held >= sealed.threshold && |ibe.encryptedShares| == |sealed.services| ==>
                  s.g2FromBytes(ibe.nonce).None? ==> r == Failure(InvalidPoint))
            && (r.Success? ==> 1 <= sealed.threshold <= 255)
            && (r.Success? ==>
                  exists randomness :: s.g2FromBytes(ibe.nonce) == Some(s.multiplyG2(s.generator, randomness)))
  {
    SlotsAreCounted(fullId, sealed.services, keys, |sealed.services|);
    hide LawfulCiphers, CreateFullId, InKeyStore, OpenShares;
    var slots := InKeyStore(fullId, sealed.services, keys, |sealed.services|);
    if |sealed.encryptedShares.encryptedShares| == |sealed.services| {
      match s.g2FromBytes(sealed.encryptedShares.nonce) {
        case None =>
        case Some(nonce) => OpenSharesChecks(s, sealed, keys, fullId, nonce, slots);
      }
    }
    DecryptOpensShares(s, sealed, keys, fullId);
    hide Seal.Decrypt;
  }

  /** What decrypt does with the shares in some slots. */
  ghost function OpenShares<G1, G2, GT, Scalar>(s: Suite<G1, G2, GT, Scalar>, sealed: EncryptedObject,
                                                keys: KeyStore<G1>, fullId: string, nonce: G2, slots: seq<nat>)
    : Result<ByteString, SealError>
    requires LawfulCiphers(s.ciphers) && |sealed.encryptedShares.encryptedShares| == |sealed.services|
    requires forall k :: 0 <= k < |slots| ==>
              slots[k] < |sealed.services| && (fullId, sealed.services[slots[k]].0) in keys
  {
    var shares :- DecryptShares(s, sealed, keys, fullId, nonce, slots);
    var baseKey :- Combine(shares);
    DecryptWithBaseKey(s, sealed, nonce, baseKey)
  }

  lemma DecryptOpensShares<G1, G2, GT, Scalar>(s: Suite<G1, G2, GT, Scalar>, sealed: EncryptedObject,
                                               keys: KeyStore<G1>, fullId: string)
    requires LawfulCiphers(s.ciphers) && CreateFullId(s, sealed.packageId, sealed.id) == Success(fullId)
    ensures var slots := InKeyStore(fullId, sealed.services, keys, |sealed.services|);
            Seal.Decrypt(s, sealed, keys) ==
            if |slots| < sealed.threshold then Failure(NotEnoughShares)
            else if |sealed.encryptedShares.encryptedShares| != |sealed.services| then Failure(MismatchedShares)
            else
              match s.g2FromBytes(sealed.encryptedShares.nonce)
              case None => Failure(InvalidPoint)
              case Some(nonce) => OpenShares(s, sealed, keys, fullId, nonce, slots)
  {
    hide LawfulCiphers, CreateFullId, InKeyStore, DecryptShares, Combine, DecryptWithBaseKey;
  }

  lemma OpenSharesChecks<G1, G2, GT, Scalar(!new)>(s: Suite<G1, G2, GT, Scalar>, sealed: EncryptedObject,
                                                   keys: KeyStore<G1>, fullId: string, nonce: G2, slots: seq<nat>)
    requires LawfulCiphers(s.ciphers) && |sealed.encryptedShares.encryptedShares| == |sealed.services|
    requires forall k :: 0 <= k < |slots| ==>
              slots[k] < |sealed.services| && (fullId, sealed.services[slots[k]].0) in keys
    ensures OpenedNonce(s, sealed.threshold, nonce, OpenShares(s, sealed, keys, fullId, nonce, slots))
  {
    hide LawfulCiphers, DecryptWithBaseKey, DecryptShares;
    SharesNeverAsk(s, sealed, keys, fullId, nonce, slots);
    var shares := DecryptShares(s, sealed, keys, fullId, nonce, slots);
    if shares.Success? && Combine(shares.value).Success? {
      BaseKeyChecks(s, sealed, nonce, Combine(shares.value).value);
    }
  }

  ghost predicate OpenedNonce<G1, G2, GT, Scalar(!new)>(s: Suite<G1, G2, GT, Scalar>, threshold: int, nonce: G2,
                                                        r: Result<ByteString, SealError>)
  {
    && r != Failure(NotEnoughShares)
    && (r.Success? ==> 1 <= threshold <= 255)
    && (r.Success? ==> exists randomness :: nonce == s.multiplyG2(s.generator, randomness))
  }

  lemma BaseKeyChecks<G1, G2, GT, Scalar(!new)>(s: Suite<G1, G2, GT, Scalar>, sealed: EncryptedObject, nonce: G2,
                                          baseKey: ByteString)
    requires LawfulCiphers(s.ciphers)
    ensures OpenedNonce(s, sealed.threshold, nonce, DecryptWithBaseKey(s, sealed, nonce, baseKey))
  {
    hide LawfulCiphers, Dem.Decrypt, Ascii, ToByte, Concatenate, HexBytes, XorUnchecked;
  }

  lemma {:induction false} SharesNeverAsk<G1, G2, GT, Scalar>(s: Suite<G1, G2, GT, Scalar>, sealed: EncryptedObject,
                                                              keys: KeyStore<G1>, fullId: string, nonce: G2,
                                                              slots: seq<nat>)
    requires |sealed.encryptedShares.encryptedShares| == |sealed.services|
    requires forall k :: 0 <= k < |slots| ==>
              slots[k] < |sealed.services| && (fullId, sealed.services[slots[k]].0) in keys
    ensures DecryptShares(s, sealed, keys, fullId, nonce, slots) != Failure(NotEnoughShares)
    decreases |slots|
  {
    hide Ascii, ToByte, XorUnchecked;
    if slots != [] {
      SharesNeverAsk(s, sealed, keys, fullId, nonce, slots[..|slots| - 1]);
    }
  }
}
