/** Identity-based encryption after Boneh and Franklin: packages/seal/src/ibe.ts and kdf.ts. The
    curve groups, the pairing, the hashes and the hexadecimal codec are parameters. */
module Ibe {
  import opened Bytes
  import opened Dem
  import opened Results
  import opened Sequences

  type ObjectId = string

  datatype Suite<!G1, !G2, !GT, !Scalar> = Suite(
    generator: G2,
    multiplyG1: (G1, Scalar) -> G1,
    multiplyG2: (G2, Scalar) -> G2,
    powerGT: (GT, Scalar) -> GT,
    pairing: (G1, G2) -> GT,
    hashToCurve: ByteString -> G1,
    g1ToBytes: G1 -> ByteString,
    g2ToBytes: G2 -> ByteString,
    g2FromBytes: ByteString -> Option<G2>,
    gtToBytes: GT -> ByteString,
    scalarToBytes: Scalar -> ByteString,
    scalarFromBytes: ByteString -> Scalar,
    sha3: ByteString -> ByteString,
    fromHex: string -> ByteString,
    toHex: ByteString -> string,
    validObjectId: string -> bool,
    ciphers: Ciphers)

  /** A scalar moves across the pairing on either side, points and scalars survive their byte
      encodings, and a digest and a scalar take 32 bytes. */
  ghost predicate Lawful<G1(!new), G2(!new), GT, Scalar(!new)>(s: Suite<G1, G2, GT, Scalar>) {
    && LawfulCiphers(s.ciphers)
    && (forall p, q, r :: s.pairing(s.multiplyG1(p, r), q) == s.powerGT(s.pairing(p, q), r))
    && (forall p, q, r :: s.pairing(p, s.multiplyG2(q, r)) == s.powerGT(s.pairing(p, q), r))
    && (forall q :: s.g2FromBytes(s.g2ToBytes(q)) == Some(q))
    && (forall r :: s.scalarFromBytes(s.scalarToBytes(r)) == r && |s.scalarToBytes(r)| == 32)
    && (forall data :: |s.sha3(data)| == 32)
  }

  datatype KeyServer = KeyServer(objectId: ObjectId, pk: ByteString)

  datatype SealError =
    | InvalidServersOrThreshold
    | InvalidPublicKeys
    | InvalidPoint
    | LengthMismatch
    | InvalidIndex
    | InvalidDerivationThreshold
    | NotEnoughShares
    | MismatchedShares
    | InvalidNonce
    | SplitFailed
    | CombineFailed
    | CiphertextRejected(error: DemError)

  // ---------- kdf.ts ----------

  const HASH_DST := Ascii("SUI-SEAL-IBE-BLS12381-00")
  const KDF_DST := Ascii("SUI-SEAL-IBE-BLS12381-H2-00")
  const DERIVE_KEY_DST := Ascii("SUI-SEAL-IBE-BLS12381-H3-00")

  function HashToG1<G1, G2, GT, Scalar>(s: Suite<G1, G2, GT, Scalar>, id: ByteString): G1 {
    s.hashToCurve(HASH_DST + id)
  }

  function Kdf<G1, G2, GT, Scalar>(s: Suite<G1, G2, GT, Scalar>, element: GT, nonce: G2, id: ByteString,
                                   objectId: ObjectId, index: int): Result<ByteString, SealError>
  {
    if index < 0 || index > 255 then Failure(InvalidIndex)
    else Success(s.sha3(KDF_DST + s.gtToBytes(element) + s.g2ToBytes(nonce) + s.g1ToBytes(HashToG1(s, id)) +
                        s.fromHex(objectId) + [ToByte(index)]))
  }

  datatype KeyPurpose = EncryptedRandomness | DemKey

  function Tag(purpose: KeyPurpose): ByteString {
    match purpose
    case EncryptedRandomness => [0]
    case DemKey => [1]
  }

  function HexBytes<G1, G2, GT, Scalar>(s: Suite<G1, G2, GT, Scalar>, ids: seq<ObjectId>): seq<ByteString> {
    seq(|ids|, i requires 0 <= i < |ids| => s.fromHex(ids[i]))
  }

  function DeriveKey<G1, G2, GT, Scalar>(s: Suite<G1, G2, GT, Scalar>, purpose: KeyPurpose, baseKey: ByteString,
                                         encryptedShares: seq<ByteString>, threshold: int, keyServers: seq<ObjectId>)
    : Result<ByteString, SealError>
  {
    if threshold <= 0 || threshold > 255 then Failure(InvalidDerivationThreshold)
    else Success(s.sha3(DERIVE_KEY_DST + baseKey + Tag(purpose) + [ToByte(threshold)] +
                        Concatenate(encryptedShares) + Concatenate(HexBytes(s, keyServers))))
  }

  // ---------- ibe.ts ----------

  /** The source's checked xor. */
  function XorBytes(a: ByteString, b: ByteString): (r: Result<ByteString, SealError>)
    ensures r.Success? <==> |a| == |b|
    ensures r.Success? ==> |r.value| == |a|
  {
    if |a| != |b| then Failure(LengthMismatch) else Success(XorUnchecked(a, b))
  }

  lemma XorBytesTwice(a: ByteString, b: ByteString)
    requires |a| == |b|
    ensures XorBytes(XorUnchecked(a, b), b) == Success(a)
    ensures XorBytes(XorUnchecked(a, b), a) == Success(b)
  {
    hide Xor;
    var x := XorUnchecked(a, b);
    forall k | 0 <= k < |a| ensures XorUnchecked(x, b)[k] == a[k] && XorUnchecked(x, a)[k] == b[k] {
      XorTwice(a[k], b[k]);
      XorTwice(b[k], a[k]);
      XorCommutes(a[k], b[k]);
    }
    assert XorUnchecked(x, b) == a && XorUnchecked(x, a) == b;
  }

  lemma XorCommutes(a: bv8, b: bv8)
    ensures Xor(a, b) == Xor(b, a)
  {
  }

  /** What one encryption leaves behind in the object. */
  datatype IbeEncryptions = IbeEncryptions(nonce: ByteString, encryptedShares: seq<ByteString>,
      encryptedRandomness: ByteString)

  function PublicKeys<G1, G2, GT, Scalar>(s: Suite<G1, G2, GT, Scalar>, servers: seq<KeyServer>)
    : (r: Result<seq<G2>, SealError>)
    ensures r.Success? ==> |r.value| == |servers|
    ensures r.Success? ==> forall i :: 0 <= i < |servers| ==> s.g2FromBytes(servers[i].pk) == Some(r.value[i])
    ensures r.Failure? <==> exists i :: 0 <= i < |servers| && s.g2FromBytes(servers[i].pk).None?
  {
    if servers == [] then Success([])
    else
      var n := |servers| - 1;
      match PublicKeys(s, servers[..n])
      case Failure(e) =>
        assert exists i :: 0 <= i < n && s.g2FromBytes(servers[..n][i].pk).None?;
        assert forall i :: 0 <= i < n ==> servers[..n][i] == servers[i];
        Failure(e)
      case Success(init) =>
        match s.g2FromBytes(servers[n].pk)
        case None => Failure(InvalidPoint)
        case Some(pk) => Success(init + [pk])
  }

  function ObjectIds(servers: seq<KeyServer>): (r: seq<ObjectId>)
    ensures |r| == |servers| && forall i :: 0 <= i < |r| ==> r[i] == servers[i].objectId
  {
    Map((server: KeyServer) => server.objectId, servers)
  }

  datatype MessageAndIndex = MessageAndIndex(msg: ByteString, index: int)

  /** The key encapsulated for a public key and an identity under the randomness r. */
  function EncapsulatedKey<G1, G2, GT, Scalar>(s: Suite<G1, G2, GT, Scalar>, r: Scalar, pk: G2, id: ByteString): GT {
    s.pairing(s.multiplyG1(HashToG1(s, id), r), pk)
  }

  function EncryptShares<G1, G2, GT, Scalar>(s: Suite<G1, G2, GT, Scalar>, r: Scalar, nonce: G2, keys: seq<G2>,
                                             ids: seq<ObjectId>, id: ByteString, msgs: seq<MessageAndIndex>)
    : (result: Result<seq<ByteString>, SealError>)
    requires |keys| == |msgs| == |ids|
    ensures result.Success? ==> |result.value| == |msgs|
  {
    if msgs == [] then Success([])
    else
      var n := |msgs| - 1;
      var init :- EncryptShares(s, r, nonce, keys[..n], ids[..n], id, msgs[..n]);
      var mask :- Kdf(s, EncapsulatedKey(s, r, keys[n], id), nonce, id, ids[n], msgs[n].index);
      var share :- XorBytes(msgs[n].msg, mask);
      Success(init + [share])
  }

  function EncryptBatched<G1, G2, GT, Scalar>(s: Suite<G1, G2, GT, Scalar>, servers: seq<KeyServer>, id: ByteString,
                                              msgs: seq<MessageAndIndex>, baseKey: ByteString, threshold: int,
                                                  r: Scalar)
    : Result<IbeEncryptions, SealError>
  {
    var publicKeys :- PublicKeys(s, servers);
    if |publicKeys| == 0 || |publicKeys| != |msgs| then Failure(InvalidPublicKeys)
    else
      var nonce := s.multiplyG2(s.generator, r);
      var encryptedShares :- EncryptShares(s, r, nonce, publicKeys, ObjectIds(servers), id, msgs);
      var randomnessKey :- DeriveKey(s, EncryptedRandomness, baseKey, encryptedShares, threshold, ObjectIds(servers));
      var encryptedRandomness :- XorBytes(randomnessKey, s.scalarToBytes(r));
      Success(IbeEncryptions(s.g2ToBytes(nonce), encryptedShares, encryptedRandomness))
  }

  function VerifyUserSecretKey<G1, G2, GT(==), Scalar>(s: Suite<G1, G2, GT, Scalar>, userSecretKey: G1, id: string,
                                                       publicKey: G2): bool
  {
    s.pairing(userSecretKey, s.generator) == s.pairing(HashToG1(s, s.fromHex(id)), publicKey)
  }

  function Decap<G1, G2, GT, Scalar>(s: Suite<G1, G2, GT, Scalar>, nonce: G2, userSecretKey: G1): GT {
    s.pairing(userSecretKey, nonce)
  }

  function DecryptShare<G1, G2, GT, Scalar>(s: Suite<G1, G2, GT, Scalar>, nonce: G2, userSecretKey: G1,
                                            ciphertext: ByteString,
                                            id: ByteString, objectId: ObjectId, index: int): Result<ByteString,
                                                SealError>
  {
    var mask :- Kdf(s, Decap(s, nonce, userSecretKey), nonce, id, objectId, index);
    XorBytes(ciphertext, mask)
  }

  function VerifyNonce<G1, G2(==), GT, Scalar>(s: Suite<G1, G2, GT, Scalar>, nonce: G2, randomness: Scalar): bool {
    s.multiplyG2(s.generator, randomness) == nonce
  }

  function DecryptRandomness<G1, G2, GT, Scalar>(s: Suite<G1, G2, GT, Scalar>, encryptedRandomness: ByteString,
                                                 randomnessKey: ByteString): Result<Scalar, SealError>
  {
    var bytes :- XorBytes(encryptedRandomness, randomnessKey);
    Success(s.scalarFromBytes(bytes))
  }

  /** A user key that passes the verification equation decapsulates exactly the encapsulated key. */
  lemma VerifiedKeyDecapsulates<G1(!new), G2(!new), GT, Scalar(!new)>(
      s: Suite<G1, G2, GT, Scalar>, r: Scalar, pk: G2, userSecretKey: G1, id: string)
    requires Lawful(s) && VerifyUserSecretKey(s, userSecretKey, id, pk)
    ensures Decap(s, s.multiplyG2(s.generator, r), userSecretKey) == EncapsulatedKey(s, r, pk, s.fromHex(id))
  {
    var h := HashToG1(s, s.fromHex(id));
    assert s.pairing(userSecretKey, s.multiplyG2(s.generator, r))
        == s.powerGT(s.pairing(userSecretKey, s.generator), r);
    assert s.pairing(s.multiplyG1(h, r), pk) == s.powerGT(s.pairing(h, pk), r);
  }

  /** Encrypting a batch succeeds for 32-byte messages with indices of one byte, and each encrypted
      share is its message under the mask of its own key, server and index. */
  lemma {:induction false} EncryptedShare<G1(!new), G2(!new), GT, Scalar(!new)>(
      s: Suite<G1, G2, GT, Scalar>, r: Scalar, nonce: G2, keys: seq<G2>, ids: seq<ObjectId>, id: ByteString,
      msgs: seq<MessageAndIndex>)
    requires Lawful(s) && |keys| == |msgs| == |ids|
    requires forall i :: 0 <= i < |msgs| ==> |msgs[i].msg| == 32 && 0 <= msgs[i].index <= 255
    ensures EncryptShares(s, r, nonce, keys, ids, id, msgs).Success?
    ensures forall i :: 0 <= i < |msgs| ==>
                          && Kdf(s, EncapsulatedKey(s, r, keys[i], id), nonce, id, ids[i], msgs[i].index).Success?
                          && |Kdf(s, EncapsulatedKey(s, r, keys[i], id), nonce, id, ids[i], msgs[i].index).value| == 32
                          && EncryptShares(s, r, nonce, keys, ids, id, msgs).value[i] ==
                             XorUnchecked(msgs[i].msg,
                                 Kdf(s, EncapsulatedKey(s, r, keys[i], id), nonce, id, ids[i], msgs[i].index).value)
    decreases |msgs|
  {
    hide Xor, XorUnchecked;
    if msgs != [] {
      var n := |msgs| - 1;
      EncryptedShare(s, r, nonce, keys[..n], ids[..n], id, msgs[..n]);
      KdfLength(s, EncapsulatedKey(s, r, keys[n], id), nonce, id, ids[n], msgs[n].index);
      hide Lawful, Kdf, EncapsulatedKey;
    }
  }

  lemma KdfLength<G1(!new), G2(!new), GT, Scalar(!new)>(
      s: Suite<G1, G2, GT, Scalar>, element: GT, nonce: G2, id: ByteString, objectId: ObjectId, index: int)
    requires Lawful(s) && 0 <= index <= 255
    ensures Kdf(s, element, nonce, id, objectId, index).Success?
    ensures |Kdf(s, element, nonce, id, objectId, index).value| == 32
  {
  }

  /** A server's share comes back from its ciphertext with any verified user key. */
  lemma DecryptShareInverts<G1(!new), G2(!new), GT, Scalar(!new)>(
      s: Suite<G1, G2, GT, Scalar>, r: Scalar, pk: G2, userSecretKey: G1, id: string, objectId: ObjectId, index: int,
      share: ByteString, mask: ByteString)
    requires Lawful(s) && VerifyUserSecretKey(s, userSecretKey, id, pk) && |share| == |mask|
    requires Kdf(s, EncapsulatedKey(s, r, pk, s.fromHex(id)), s.multiplyG2(s.generator, r), s.fromHex(id), objectId,
        index)
             == Success(mask)
    ensures DecryptShare(s, s.multiplyG2(s.generator, r), userSecretKey, XorUnchecked(share, mask), s.fromHex(id),
        objectId, index)
            == Success(share)
  {
    VerifiedKeyDecapsulates(s, r, pk, userSecretKey, id);
    XorBytesTwice(share, mask);
    hide Lawful, VerifyUserSecretKey, Kdf, XorUnchecked, EncapsulatedKey, Decap;
  }
}
