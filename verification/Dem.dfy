/** Data encapsulation: packages/seal/src/dem.ts, with the hash functions and AES-GCM as parameters. */
module Dem {
  import opened Bytes
  import opened Results
  import opened Sequences
  import Numbers
  import Octets

  type ByteString = seq<bv8>

  /** The keyed functions of the libraries the source calls. */
  datatype Ciphers = Ciphers(
    hmac: (ByteString, ByteString) -> ByteString,
    aesEncrypt: (ByteString, ByteString, ByteString) -> ByteString,
    aesDecrypt: (ByteString, ByteString, ByteString) -> Option<ByteString>)

  /** HMAC-SHA3-256 yields 32 bytes, and AES-GCM decrypts what it encrypted under the same key and
      additional data. */
  ghost predicate LawfulCiphers(c: Ciphers) {
    && (forall key, message :: |c.hmac(key, message)| == 32)
    && (forall key, aad, message :: c.aesDecrypt(key, aad, c.aesEncrypt(key, aad, message)) == Some(message))
  }

  datatype DemError = InvalidCiphertext | DecryptionFailed

  datatype Ciphertext =
    | Aes256Gcm(blob: ByteString, aad: ByteString)
    | Hmac256Ctr(blob: ByteString, aad: ByteString, mac: ByteString)
    | Plain

  datatype EncryptionInput =
    | AesGcmInput(plaintext: ByteString, aad: ByteString)
    | HmacCtrInput(plaintext: ByteString, aad: ByteString)

  /** toBytes: a number as the eight little-endian bytes of a BCS u64. */
  function LengthBytes(n: nat): (r: ByteString)
    ensures |r| == 8
  {
    var bytes := Octets.LittleEndian(n, 8);
    seq(8, i requires 0 <= i < 8 => ToByte(bytes[i]))
  }

  function Ascii(text: string): ByteString {
    seq(|text|, i requires 0 <= i < |text| => ToByte(text[i] as int % 256))
  }

  const ENCRYPTION_KEY_TAG := Ascii("HMAC-CTR-ENC")
  const MAC_KEY_TAG := Ascii("HMAC-CTR-MAC")
  const BLOCK_SIZE: nat := 32

  /** The mask of block i. */
  function Mask(c: Ciphers, key: ByteString, i: nat): ByteString {
    c.hmac(key, ENCRYPTION_KEY_TAG + LengthBytes(i))
  }

  function Xor(a: bv8, b: bv8): bv8 {
    a ^ b
  }

  /** The byte that masks byte k of a message: byte k mod 32 of the mask of block k / 32. */
  function MaskByte(c: Ciphers, key: ByteString, k: nat): bv8
    requires LawfulCiphers(c)
  {
    Mask(c, key, k / BLOCK_SIZE)[k % BLOCK_SIZE]
  }

  /** Counter mode, byte by byte. */
  function CounterMode(c: Ciphers, key: ByteString, message: ByteString): (r: ByteString)
    requires LawfulCiphers(c)
    ensures |r| == |message|
    ensures forall k :: 0 <= k < |r| ==> r[k] == Xor(message[k], MaskByte(c, key, k))
  {
    seq(|message|, k requires 0 <= k < |message| => Xor(message[k], MaskByte(c, key, k)))
  }

  function Min(a: nat, b: nat): nat {
    if a < b then a else b
  }

  /** Each byte of a with the byte of b at the same place. A missing byte of b reads as undefined
      in the source, which masks nothing. */
  function XorUnchecked(a: ByteString, b: ByteString): (r: ByteString)
    ensures |r| == |a|
    ensures forall k :: 0 <= k < |r| ==> r[k] == if k < |b| then Xor(a[k], b[k]) else a[k]
  {
    seq(|a|, k requires 0 <= k < |a| => if k < |b| then Xor(a[k], b[k]) else a[k])
  }

  /** Masking one block masks the bytes of the message that the block holds. */
  lemma MaskedBlock(c: Ciphers, key: ByteString, message: ByteString, i: nat, start: nat, end: nat)
    requires LawfulCiphers(c) && start == i * BLOCK_SIZE && start <= end <= |message| && end <= start + BLOCK_SIZE
    ensures XorUnchecked(message[start..end], Mask(c, key, i)) == CounterMode(c, key, message)[start..end]
  {
    hide Xor, Mask;
    var block := XorUnchecked(message[start..end], Mask(c, key, i));
    forall k | 0 <= k < end - start ensures block[k] == CounterMode(c, key, message)[start + k] {
      assert (start + k) / BLOCK_SIZE == i && (start + k) % BLOCK_SIZE == k;
      assert |Mask(c, key, i)| == 32 by { MaskLength(c, key, i); }
    }
  }

  lemma MaskLength(c: Ciphers, key: ByteString, i: nat)
    requires LawfulCiphers(c)
    ensures |Mask(c, key, i)| == 32
  {
  }

  /** Copies a block into the array at an offset, as a typed array's set does. */
  method SetBytes(target: array<bv8>, block: ByteString, offset: nat)
    requires offset + |block| <= target.Length
    modifies target
    ensures target[..] == old(target[..offset]) + block + old(target[offset + |block|..])
  {
    for k := 0 to |block|
      invariant target[..] == old(target[..offset]) + block[..k] + old(target[offset + k..])
    {
      target[offset + k] := block[k];
    }
  }

  /** flatten: every array is copied to a running offset of one buffer. */
  method Flatten(arrays: seq<ByteString>) returns (result: array<bv8>)
    ensures fresh(result) && result[..] == Concatenate(arrays)
  {
    hide Concatenate;
    var length := 0;
    assert Concatenate(arrays[..0]) == [] by { EmptyConcatenation<bv8>(); }
    for i := 0 to |arrays|
      invariant length == |Concatenate(arrays[..i])|
    {
      ConcatenateOneMore(arrays, i);
      length := length + |arrays[i]|;
    }
    assert arrays[..|arrays|] == arrays;
    result := new bv8[length](_ => 0);
    var offset := 0;
    for i := 0 to |arrays|
      invariant fresh(result) && result.Length == length == |Concatenate(arrays)|
      invariant offset == |Concatenate(arrays[..i])| <= length
      invariant result[..offset] == Concatenate(arrays[..i])
    {
      ConcatenateOneMore(arrays, i);
      ghost var before := result[..offset];
      SetBytes(result, arrays[i], offset);
      offset := offset + |arrays[i]|;
      assert result[..offset] == before + arrays[i];
    }
    assert result[..] == result[..offset];
  }

  /** The source's block loop. It visits every block once, the last one cut off at the end of the message. */
  method EncryptInCtrMode(c: Ciphers, key: ByteString, message: ByteString) returns (result: array<bv8>)
    requires LawfulCiphers(c)
    ensures fresh(result)
    ensures result[..] == CounterMode(c, key, message)
  {
    hide Mask, MaskByte, CounterMode, XorUnchecked, LawfulCiphers;
    result := new bv8[|message|](_ => 0);
    ghost var whole := CounterMode(c, key, message);
    var i := 0;
    while i * BLOCK_SIZE < |message|
      invariant 0 <= i
      invariant result.Length == |message| && fresh(result)
      invariant result[..Min(i * BLOCK_SIZE, |message|)] == whole[..Min(i * BLOCK_SIZE, |message|)]
      decreases |message| - i * BLOCK_SIZE
    {
      var start, end := i * BLOCK_SIZE, Min((i + 1) * BLOCK_SIZE, |message|);
      var encryptedBlock := XorUnchecked(message[start..end], Mask(c, key, i));
      MaskedBlock(c, key, message, i, start, end);
      ghost var before := result[..];
      SetBytes(result, encryptedBlock, start);
      assert result[..end] == before[..start] + encryptedBlock;
      assert whole[..end] == whole[..start] + whole[start..end];
      i := i + 1;
    }
    assert result[..] == result[..|message|] && whole == whole[..|message|];
  }

  lemma XorTwice(a: bv8, m: bv8)
    ensures Xor(Xor(a, m), m) == a
  {
  }

  /** Counter mode is its own inverse, for messages of every length. */
  lemma CounterModeInvolution(c: Ciphers, key: ByteString, message: ByteString)
    requires LawfulCiphers(c)
    ensures CounterMode(c, key, CounterMode(c, key, message)) == message
  {
    hide Xor, MaskByte, LawfulCiphers;
    var once := CounterMode(c, key, message);
    forall k | 0 <= k < |message| ensures CounterMode(c, key, once)[k] == message[k] {
      XorTwice(message[k], MaskByte(c, key, k));
    }
  }

  function ComputeMac(c: Ciphers, key: ByteString, aad: ByteString, ciphertext: ByteString): ByteString {
    c.hmac(key, MAC_KEY_TAG + LengthBytes(|aad|) + aad + ciphertext)
  }

  function Encrypt(c: Ciphers, input: EncryptionInput, key: ByteString): Ciphertext
    requires LawfulCiphers(c)
  {
    match input
    case AesGcmInput(plaintext, aad) => Aes256Gcm(c.aesEncrypt(key, aad, plaintext), aad)
    case HmacCtrInput(plaintext, aad) =>
      var blob := CounterMode(c, key, plaintext);
      Hmac256Ctr(blob, aad, ComputeMac(c, key, aad, blob))
  }

  function DecryptAes(c: Ciphers, key: ByteString, ciphertext: Ciphertext): Result<ByteString, DemError> {
    if !ciphertext.Aes256Gcm? then Failure(InvalidCiphertext)
    else
      match c.aesDecrypt(key, ciphertext.aad, ciphertext.blob)
      case None => Failure(DecryptionFailed)
      case Some(m) => Success(m)
  }

  function DecryptHmac(c: Ciphers, key: ByteString, ciphertext: Ciphertext): Result<ByteString, DemError>
    requires LawfulCiphers(c)
  {
    if !ciphertext.Hmac256Ctr? then Failure(InvalidCiphertext)
    else if ComputeMac(c, key, ciphertext.aad, ciphertext.blob) != ciphertext.mac then Failure(DecryptionFailed)
    else Success(CounterMode(c, key, ciphertext.blob))
  }

  /** The dispatch at the end of the source's decrypt. Plain mode returns the key. */
  function Decrypt(c: Ciphers, key: ByteString, ciphertext: Ciphertext): Result<ByteString, DemError>
    requires LawfulCiphers(c)
  {
    match ciphertext
    case Aes256Gcm(_, _) => DecryptAes(c, key, ciphertext)
    case Hmac256Ctr(_, _, _) => DecryptHmac(c, key, ciphertext)
    case Plain => Success(key)
  }

  lemma DecryptInvertsEncrypt(c: Ciphers, key: ByteString, input: EncryptionInput)
    requires LawfulCiphers(c)
    ensures Decrypt(c, key, Encrypt(c, input, key)) == Success(input.plaintext)
  {
    CounterModeInvolution(c, key, input.plaintext);
  }

  /** Decryption accepts a counter-mode ciphertext exactly when its tag is the tag of its data. */
  lemma AcceptsExactlyAuthentic(c: Ciphers, key: ByteString, blob: ByteString, aad: ByteString, mac: ByteString)
    requires LawfulCiphers(c)
    ensures Decrypt(c, key, Hmac256Ctr(blob, aad, mac)).Success? <==>
            exists message :: Encrypt(c, HmacCtrInput(message, aad), key) == Hmac256Ctr(blob, aad, mac)
  {
    var message := CounterMode(c, key, blob);
    CounterModeInvolution(c, key, blob);
    if Decrypt(c, key, Hmac256Ctr(blob, aad, mac)).Success? {
      assert Encrypt(c, HmacCtrInput(message, aad), key) == Hmac256Ctr(blob, aad, mac);
    }
  }

  // ---------- What the counter and the tag cover ----------

  lemma Appended<T>(a: seq<T>, b: seq<T>, c: seq<T>, d: seq<T>)
    requires |a| == |c| && a + b == c + d
    ensures a == c && b == d
  {
    assert (a + b)[..|a|] == a && (c + d)[..|c|] == c;
    assert (a + b)[|a|..] == b && (c + d)[|c|..] == d;
  }

  /** Different numbers below 2^64 have different bytes. */
  lemma LengthBytesInjective(m: nat, n: nat)
    requires m < 0x1_0000_0000_0000_0000 && n < 0x1_0000_0000_0000_0000 && LengthBytes(m) == LengthBytes(n)
    ensures m == n
  {
    assert Octets.Pow256(8) == 0x1_0000_0000_0000_0000 by {
      assert Octets.Pow256(6) == 0x1_0000_0000_0000;
    }
    hide Octets.Pow256, Octets.LittleEndian, ToByte;
    var a, b := Octets.LittleEndian(m, 8), Octets.LittleEndian(n, 8);
    forall i | 0 <= i < 8 ensures a[i] == b[i] {
      assert LengthBytes(m)[i] == ToByte(a[i]) && LengthBytes(n)[i] == ToByte(b[i]);
      ToByteInjective(a[i], b[i]);
    }
    assert a == b;
    Numbers.LittleEndianInverts(m, 8);
    Numbers.LittleEndianInverts(n, 8);
  }

  /** What hmac is given for the tag: the text HMAC-CTR-MAC, the length of the additional data in eight
      bytes, the additional data and the encrypted bytes. */
  function Tagged(aad: ByteString, blob: ByteString): ByteString {
    Ascii("HMAC-CTR-MAC") + LengthBytes(|aad|) + aad + blob
  }

  lemma TaggedDiffer(aad: ByteString, blob: ByteString, otherAad: ByteString, otherBlob: ByteString)
    requires |aad| < 0x1_0000_0000_0000_0000 && |otherAad| < 0x1_0000_0000_0000_0000
    requires Tagged(aad, blob) == Tagged(otherAad, otherBlob)
    ensures aad == otherAad && blob == otherBlob
  {
    hide LengthBytes, Ascii;
    var tag := Ascii("HMAC-CTR-MAC");
    assert Tagged(aad, blob) == tag + (LengthBytes(|aad|) + (aad + blob));
    assert Tagged(otherAad, otherBlob) == tag + (LengthBytes(|otherAad|) + (otherAad + otherBlob));
    Appended(tag, LengthBytes(|aad|) + (aad + blob), tag, LengthBytes(|otherAad|) + (otherAad + otherBlob));
    Appended(LengthBytes(|aad|), aad + blob, LengthBytes(|otherAad|), otherAad + otherBlob);
    LengthBytesInjective(|aad|, |otherAad|);
    Appended(aad, blob, otherAad, otherBlob);
  }

  /** A tag covers the additional data and the encrypted bytes: with the tag of one encryption, other
      additional data or other bytes are rejected unless hmac collides on the two inputs, and with
      another tag everything is. */
  lemma TagCoversEverything(c: Ciphers, key: ByteString, message: ByteString, aad: ByteString, otherBlob: ByteString,
                            otherAad: ByteString, otherMac: ByteString)
    requires LawfulCiphers(c)
    requires |aad| < 0x1_0000_0000_0000_0000 && |otherAad| < 0x1_0000_0000_0000_0000
    ensures var sealed := Encrypt(c, HmacCtrInput(message, aad), key);
            && sealed.Hmac256Ctr? && sealed.aad == aad
            && ((otherBlob != sealed.blob || otherAad != aad)
                && (c.hmac(key, Tagged(aad, sealed.blob)) == c.hmac(key, Tagged(otherAad, otherBlob)) ==>
                      Tagged(aad, sealed.blob) == Tagged(otherAad, otherBlob)) ==>
                Decrypt(c, key, Hmac256Ctr(otherBlob, otherAad, sealed.mac)) == Failure(DecryptionFailed))
            && (otherMac != sealed.mac ==>
                Decrypt(c, key, Hmac256Ctr(sealed.blob, aad, otherMac)) == Failure(DecryptionFailed))
  {
    hide CounterMode, LengthBytes;
    var sealed := Encrypt(c, HmacCtrInput(message, aad), key);
    if Tagged(aad, sealed.blob) == Tagged(otherAad, otherBlob) {
      TaggedDiffer(aad, sealed.blob, otherAad, otherBlob);
    }
  }

  /** No two blocks are masked from the same input, and no mask comes from the input of a tag. */
  lemma InputsDiffer(i: nat, j: nat, aad: ByteString, blob: ByteString)
    requires i < j < 0x1_0000_0000_0000_0000
    ensures Ascii("HMAC-CTR-ENC") + LengthBytes(i) != Ascii("HMAC-CTR-ENC") + LengthBytes(j)
    ensures Ascii("HMAC-CTR-ENC") + LengthBytes(i) != Tagged(aad, blob)
  {
    hide LengthBytes, Ascii, ToByte;
    var enc, mac := Ascii("HMAC-CTR-ENC"), Ascii("HMAC-CTR-MAC");
    if enc + LengthBytes(i) == enc + LengthBytes(j) {
      Appended(enc, LengthBytes(i), enc, LengthBytes(j));
      LengthBytesInjective(i, j);
    }
    TagsDiffer();
    assert (enc + LengthBytes(i))[9] == enc[9] && Tagged(aad, blob)[9] == mac[9];
  }

  lemma TagsDiffer()
    ensures |Ascii("HMAC-CTR-ENC")| == |Ascii("HMAC-CTR-MAC")| == 12
    ensures Ascii("HMAC-CTR-ENC")[9] != Ascii("HMAC-CTR-MAC")[9]
  {
    hide ToByte;
    ToByteDiffer('E' as int, 'M' as int);
  }

  lemma ToByteDiffer(v: nat, w: nat)
    requires v < 256 && w < 256 && v != w
    ensures ToByte(v) != ToByte(w)
  {
    FromToByte(v);
    FromToByte(w);
  }

  /** The bytes of a ciphertext: AES-GCM under the key and the additional data, or every byte combined
      with its byte of the mask of its block of 32, and the tag. */
  ghost predicate Encapsulates(c: Ciphers, key: ByteString, input: EncryptionInput, ciphertext: Ciphertext) {
    match input
    case AesGcmInput(plaintext, aad) => ciphertext == Aes256Gcm(c.aesEncrypt(key, aad, plaintext), aad)
    case HmacCtrInput(plaintext, aad) =>
      && ciphertext.Hmac256Ctr? && ciphertext.aad == aad && |ciphertext.blob| == |plaintext|
      && (forall k :: 0 <= k < |plaintext| ==>
            var mask := c.hmac(key, Ascii("HMAC-CTR-ENC") + LengthBytes(k / 32));
            k % 32 < |mask| && ciphertext.blob[k] == plaintext[k] ^ mask[k % 32])
      && ciphertext.mac == c.hmac(key, Tagged(aad, ciphertext.blob))
  }

  lemma EncryptEncapsulates(c: Ciphers, key: ByteString, input: EncryptionInput)
    requires LawfulCiphers(c)
    ensures Encapsulates(c, key, input, Encrypt(c, input, key))
  {
    hide LengthBytes;
    if input.HmacCtrInput? {
      var blob := CounterMode(c, key, input.plaintext);
      forall k | 0 <= k < |blob|
        ensures var mask := c.hmac(key, Ascii("HMAC-CTR-ENC") + LengthBytes(k / 32));
                k % 32 < |mask| && blob[k] == input.plaintext[k] ^ mask[k % 32]
      {
        assert blob[k] == Xor(input.plaintext[k], MaskByte(c, key, k));
      }
    }
  }
}
