/** The serialized object of packages/seal/src/bcs.ts, byte by byte: what encrypt hands out and what
    other implementations have to read. */
module SealFormat {
  import Dem
  import Ibe
  import Seal
  import opened Octets
  import opened Sequences
  import opened Uleb
  import opened Results
  import opened Hex
  import opened BcsSchema
  import opened BcsLaws
  import opened BcsWrites
  import opened BcsCombinators
  import opened BcsFormat
  import opened SealObject

  /** The length in groups of seven bits, and then the bytes. */
  ghost function Measured(bytes: seq<Byte>): seq<Byte> {
    UlebEncode(|bytes|) + bytes
  }

  ghost function IdOf(text: string): seq<Byte> {
    match FromHex(text)
    case Some(bytes) => bytes
    case None => []
  }

  ghost function AddressOf(text: string): seq<Byte> {
    match AddressBytes(text)
    case Some(bytes) => bytes
    case None => []
  }

  /** A number below 256 as one byte. */
  ghost function OneByte(n: int): (r: seq<Byte>)
    ensures 0 <= n < 256 ==> r == [n]
  {
    if 0 <= n < 256 then [n] else []
  }

  /** A server's address and the index of its share. */
  ghost function ServiceBytes(service: (string, int)): seq<Byte> {
    AddressOf(service.0) + OneByte(service.1)
  }

  ghost function ServicesBytes(services: seq<(string, int)>): seq<Byte> {
    UlebEncode(|services|) + Concatenate(Map((s: (string, int)) => ServiceBytes(s), services))
  }

  /** The tag of the mode, the encrypted bytes, the additional data behind the byte 1 of a present
      option, and the tag of the counter mode. */
  ghost function CiphertextBytes(c: Dem.Ciphertext): seq<Byte> {
    match c
    case Aes256Gcm(blob, aad) => [0] + Measured(ToOctets(blob)) + [1] + Measured(ToOctets(aad))
    case Hmac256Ctr(blob, aad, mac) =>
      [1] + Measured(ToOctets(blob)) + [1] + Measured(ToOctets(aad)) + ToOctets(mac)
    case Plain => [2]
  }

  ghost function SharesBytes(e: Ibe.IbeEncryptions): seq<Byte> {
    [0] + ToOctets(e.nonce)
    + UlebEncode(|e.encryptedShares|) + Concatenate(Map((part: Dem.ByteString) => ToOctets(part), e.encryptedShares))
    + ToOctets(e.encryptedRandomness)
  }

  ghost function ObjectBytes(sealed: Seal.EncryptedObject): seq<Byte> {
    OneByte(0) + AddressOf(sealed.packageId) + Measured(IdOf(sealed.id)) + ServicesBytes(sealed.services)
    + OneByte(sealed.threshold) + SharesBytes(sealed.encryptedShares) + CiphertextBytes(sealed.ciphertext)
  }

  // ---------- Parts ----------

  lemma ByteFormat(env: Environment, fuel: nat, n: int)
    requires 0 <= n < 256
    ensures Encode(env, fuel, U8, Number(n)) == Success([n])
  {
    IntegerFormat(env, fuel, U8, n);
    assert Pow256(0) == 1;
    hide Pow256, LittleEndian;
    var bytes := Encode(env, fuel, U8, Number(n)).value;
    assert bytes == [bytes[0]];
  }

  lemma {:induction false} Singletons(bytes: seq<Byte>)
    ensures Concatenate(Map((b: Byte) => [b], bytes)) == bytes
    decreases |bytes|
  {
    if bytes != [] {
      Singletons(bytes[1..]);
      assert Map((b: Byte) => [b], bytes)[1..] == Map((b: Byte) => [b], bytes[1..]);
      assert bytes == [bytes[0]] + bytes[1..];
    }
  }

  lemma ByteListFormat(env: Environment, fuel: nat, bytes: seq<Byte>)
    ensures Encode(env, fuel, Vector(U8), ByteArray(bytes)) == Success(Measured(bytes))
  {
    var items := Items(ByteArray(bytes)).value;
    var parts := Map((b: Byte) => [b], bytes);
    forall i | 0 <= i < |items| ensures Encode(env, fuel, U8, items[i]) == Success(parts[i]) {
      ByteFormat(env, fuel, bytes[i]);
    }
    assert AreEncodings(env, fuel, U8, items, parts);
    ItemsFormat(env, fuel, U8, items, parts);
    Singletons(bytes);
    hide EncodeItems, AreEncodings, Concatenate, UlebEncode;
  }

  lemma AddressFormat(env: Environment, fuel: nat, text: string)
    requires IsAddress(text)
    ensures Encode(env, fuel, AddressSchema(), Text(text)) == Success(AddressOf(text))
  {
    hide AddressBytes, AddressText;
    FixedBytesFormat(env, fuel, 32, AddressOf(text), []);
    assert ADDRESS_LENGTH == 32;
  }

  lemma IdFormat(env: Environment, fuel: nat, text: string)
    requires FromHex(text).Some?
    ensures Encode(env, fuel, IdSchema(), Text(text)) == Success(Measured(IdOf(text)))
  {
    hide FromHex, ToHex, Measured;
    ByteListFormat(env, fuel, IdOf(text));
  }

  lemma ServiceFormat(env: Environment, fuel: nat, service: (string, int))
    requires IsAddress(service.0) && 0 <= service.1 < 256
    ensures Encode(env, fuel, Tuple([AddressSchema(), U8]), List([Text(service.0), Number(service.1)]))
            == Success(ServiceBytes(service))
  {
    hide AddressSchema, AddressOf, IsAddress, Encode, Concatenate;
    AddressFormat(env, fuel, service.0);
    ByteFormat(env, fuel, service.1);
    var (types, values) := ([AddressSchema(), U8], [Text(service.0), Number(service.1)]);
    var parts: seq<seq<Byte>> := [AddressOf(service.0), OneByte(service.1)];
    forall i | 0 <= i < 2 ensures Encode(env, fuel, types[i], values[i]) == Success(parts[i]) {
    }
    TupleFormat(env, fuel, types, values, parts);
    TwoParts(AddressOf(service.0), OneByte(service.1));
  }

  lemma ServicesFormat(env: Environment, fuel: nat, services: seq<(string, int)>)
    requires forall i :: 0 <= i < |services| ==> IsAddress(services[i].0) && 0 <= services[i].1 < 256
    ensures Encode(env, fuel, Vector(Tuple([AddressSchema(), U8])), List(ServiceValues(services)))
            == Success(ServicesBytes(services))
  {
    hide AddressSchema, IsAddress, Encode, Concatenate, ServiceBytes;
    var (items, parts) := (ServiceValues(services), Map((s: (string, int)) => ServiceBytes(s), services));
    forall i | 0 <= i < |items|
      ensures Encode(env, fuel, Tuple([AddressSchema(), U8]), items[i]) == Success(parts[i])
    {
      ServiceFormat(env, fuel, services[i]);
    }
    assert AreEncodings(env, fuel, Tuple([AddressSchema(), U8]), items, parts);
    VectorFormat(env, fuel, Tuple([AddressSchema(), U8]), items, parts, 0);
  }

  lemma NamedFormat(env: Environment, fuel: nat, fields: seq<(string, Schema)>, values: seq<Value>,
                    parts: seq<seq<Byte>>)
    requires |fields| == |values| == |parts| && DistinctNames(fields)
    requires forall i :: 0 <= i < |fields| ==> Encode(env, fuel, fields[i].1, values[i]) == Success(parts[i])
    ensures Encode(env, fuel, Struct(fields), Obj(WithNames(fields, values))) == Success(Concatenate(parts))
  {
    hide Encode, Concatenate;
    var entries := WithNames(fields, values);
    forall i | 0 <= i < |fields| ensures Property(entries, fields[i].0, values[i]) {
      assert entries[i] == (fields[i].0, values[i]);
    }
    StructFormat(env, fuel, fields, entries, values, parts);
  }

  // ---------- The encrypted shares and the ciphertext ----------

  lemma SharesFormat(env: Environment, fuel: nat, e: Ibe.IbeEncryptions)
    requires WellSizedShares(e)
    ensures Encode(env, fuel, Enum(IbeVariants()),
                   Obj([("BonehFranklinBLS12381", Obj(WithNames(IbeFields(), IbeValues(e)))),
                        ("$kind", Text("BonehFranklinBLS12381"))])) == Success(SharesBytes(e))
  {
    hide Encode, WithNames, Concatenate, UlebEncode, ToOctets, ByteArrays;
    FieldNames();
    FixedBytesFormat(env, fuel, 96, ToOctets(e.nonce), []);
    FixedBytesFormat(env, fuel, 32, ToOctets(e.encryptedRandomness), []);
    PartsFormat32(env, fuel, e.encryptedShares);
    var shares := Concatenate(Map((part: Dem.ByteString) => ToOctets(part), e.encryptedShares));
    var parts := [ToOctets(e.nonce), UlebEncode(|e.encryptedShares|) + shares, ToOctets(e.encryptedRandomness)];
    NamedFormat(env, fuel, IbeFields(), IbeValues(e), parts);
    Three(parts[0], parts[1], parts[2]);
    TagAndParts(0, ToOctets(e.nonce), UlebEncode(|e.encryptedShares|), shares, ToOctets(e.encryptedRandomness));
    OneVariant(env, fuel, Obj(WithNames(IbeFields(), IbeValues(e))));
  }

  lemma TagAndParts<T>(tag: T, a: seq<T>, u: seq<T>, v: seq<T>, c: seq<T>)
    ensures [tag] + (a + (u + v) + c) == [tag] + a + u + v + c
  {
  }

  lemma Three<T>(a: seq<T>, b: seq<T>, c: seq<T>)
    ensures Concatenate([a, b, c]) == a + b + c
  {
    assert [a, b, c][1..] == [b, c];
    TwoParts(b, c);
  }

  lemma PartsFormat32(env: Environment, fuel: nat, shares: seq<Dem.ByteString>)
    requires forall i :: 0 <= i < |shares| ==> |shares[i]| == 32
    ensures Encode(env, fuel, Vector(Bytes(32)), List(ByteArrays(shares)))
            == Success(UlebEncode(|shares|) + Concatenate(Map((part: Dem.ByteString) => ToOctets(part), shares)))
  {
    hide Encode, Concatenate;
    var (items, parts) := (ByteArrays(shares), Map((part: Dem.ByteString) => ToOctets(part), shares));
    forall i | 0 <= i < |items| ensures Encode(env, fuel, Bytes(32), items[i]) == Success(parts[i]) {
      FixedBytesFormat(env, fuel, 32, ToOctets(shares[i]), []);
    }
    assert AreEncodings(env, fuel, Bytes(32), items, parts);
    VectorFormat(env, fuel, Bytes(32), items, parts, 0);
  }

  lemma OneVariant(env: Environment, fuel: nat, payload: Value)
    requires payload.Obj?
    ensures var bytes := Encode(env, fuel, Struct(IbeFields()), payload);
            Encode(env, fuel, Enum(IbeVariants()),
                   Obj([("BonehFranklinBLS12381", payload), ("$kind", Text("BonehFranklinBLS12381"))])) ==
            if bytes.Success? then Success([0] + bytes.value) else bytes
  {
    hide Encode, IbeFields;
    var variants := IbeVariants();
    VariantFormat(env, fuel, variants, 0, payload,
                  [("BonehFranklinBLS12381", payload), ("$kind", Text("BonehFranklinBLS12381"))]);
  }

  lemma AadFormat(env: Environment, fuel: nat, bytes: seq<Byte>)
    ensures Encode(env, fuel, OptionOf(Vector(U8)), ByteArray(bytes)) == Success([1] + Measured(bytes))
  {
    ByteListFormat(env, fuel, bytes);
    hide Encode, OptionOf, Measured;
    OptionWrites(env, fuel, Vector(U8), ByteArray(bytes));
  }

  /** The parts of a ciphertext behind the tag of its mode. */
  ghost function CiphertextParts(c: Dem.Ciphertext): (r: seq<seq<Byte>>)
    ensures |r| == |CiphertextFields(c)|
  {
    match c
    case Aes256Gcm(blob, aad) => [Measured(ToOctets(blob)), [1] + Measured(ToOctets(aad))]
    case Hmac256Ctr(blob, aad, mac) => [Measured(ToOctets(blob)), [1] + Measured(ToOctets(aad)), ToOctets(mac)]
    case Plain => []
  }

  lemma BehindTag<T>(tag: T, a: seq<T>, one: T, b: seq<T>, c: seq<T>)
    ensures ([tag] + a + [one] + b)[1..] == a + ([one] + b)
    ensures ([tag] + a + [one] + b + c)[1..] == a + ([one] + b) + c
  {
  }

  lemma PartsOfCiphertext(c: Dem.Ciphertext)
    ensures CiphertextBytes(c)[1..] == Concatenate(CiphertextParts(c))
  {
    hide Measured, Concatenate, ToOctets;
    match c {
      case Plain => EmptyConcatenation<Byte>();
      case Aes256Gcm(blob, aad) =>
        var (a, b) := (Measured(ToOctets(blob)), Measured(ToOctets(aad)));
        TwoParts(a, [1] + b);
        BehindTag(0, a, 1, b, []);
      case Hmac256Ctr(blob, aad, mac) =>
        var (a, b) := (Measured(ToOctets(blob)), Measured(ToOctets(aad)));
        Three(a, [1] + b, ToOctets(mac));
        BehindTag(1, a, 1, b, ToOctets(mac));
    }
  }

  lemma CiphertextFieldsFormat(env: Environment, fuel: nat, c: Dem.Ciphertext)
    requires WellSizedCiphertext(c)
    ensures Encode(env, fuel, Struct(CiphertextFields(c)), Obj(WithNames(CiphertextFields(c), CiphertextValues(c))))
            == Success(CiphertextBytes(c)[1..])
  {
    hide Encode, WithNames, Concatenate, Measured, OptionOf, CiphertextBytes;
    FieldNames();
    NoNames();
    PartsOfCiphertext(c);
    if !c.Plain? {
      ByteListFormat(env, fuel, ToOctets(c.blob));
      AadFormat(env, fuel, ToOctets(c.aad));
    }
    if c.Hmac256Ctr? {
      FixedBytesFormat(env, fuel, 32, ToOctets(c.mac), []);
    }
    NamedFormat(env, fuel, CiphertextFields(c), CiphertextValues(c), CiphertextParts(c));
  }

  lemma SmallGroups()
    ensures UlebEncode(0) == [0] && UlebEncode(1) == [1] && UlebEncode(2) == [2]
  {
    assert ShiftRight7(1) == 0 && ShiftRight7(2) == 0;
    assert Groups(0) == [];
  }

  lemma CiphertextFormat(env: Environment, fuel: nat, c: Dem.Ciphertext)
    requires WellSizedCiphertext(c)
    ensures Encode(env, fuel, Enum(CiphertextVariants()),
                   Obj([(CiphertextName(c), Obj(WithNames(CiphertextFields(c), CiphertextValues(c))))]))
            == Success(CiphertextBytes(c))
  {
    hide Encode, WithNames, UlebEncode, AesFields, HmacFields;
    CiphertextFieldsFormat(env, fuel, c);
    SmallGroups();
    var payload := Obj(WithNames(CiphertextFields(c), CiphertextValues(c)));
    var i := match c case Aes256Gcm(_, _) => 0 case Hmac256Ctr(_, _, _) => 1 case Plain => 2;
    VariantFormat(env, fuel, CiphertextVariants(), i, payload, [(CiphertextName(c), payload)]);
    assert CiphertextBytes(c) == [i] + CiphertextBytes(c)[1..];
  }

  // ---------- The object ----------

  /** The bytes of an object: the version 0, the package's 32 bytes, the id, each server's 32 bytes with
      the index of its share, the threshold, the encrypted shares and the ciphertext. */
  lemma ObjectFormat(env: Environment, fuel: nat, sealed: Seal.EncryptedObject)
    requires WellSized(sealed) && WellNamed(sealed)
    ensures Encode(env, fuel, ObjectSchema(), ObjectValue(sealed)) == Success(ObjectBytes(sealed))
  {
    hide Encode, WithNames, IbeVariants, CiphertextVariants, CiphertextName, CiphertextFields, CiphertextValues,
         IbeFields, IbeValues, AddressSchema, IdSchema, WellSizedShares, WellSizedCiphertext, Concatenate, Measured,
         AddressOf, IdOf, SharesBytes, CiphertextBytes, ServicesBytes, IsAddress, UlebEncode;
    FieldNames();
    ByteFormat(env, fuel, 0);
    AddressFormat(env, fuel, sealed.packageId);
    IdFormat(env, fuel, sealed.id);
    ServicesFormat(env, fuel, sealed.services);
    ByteFormat(env, fuel, sealed.threshold);
    SharesFormat(env, fuel, sealed.encryptedShares);
    CiphertextFormat(env, fuel, sealed.ciphertext);
    var parts: seq<seq<Byte>> := [OneByte(0), AddressOf(sealed.packageId), Measured(IdOf(sealed.id)),
      ServicesBytes(sealed.services), OneByte(sealed.threshold), SharesBytes(sealed.encryptedShares),
      CiphertextBytes(sealed.ciphertext)];
    NamedFormat(env, fuel, ObjectFields(), ObjectValues(sealed), parts);
    Seven(parts);
  }

  lemma Four<T>(a: seq<T>, b: seq<T>, c: seq<T>, d: seq<T>)
    ensures Concatenate([a, b, c, d]) == a + b + c + d
  {
    assert [a, b, c, d][1..] == [b, c, d];
    Three(b, c, d);
    assert Concatenate([a, b, c, d]) == a + Concatenate([b, c, d]);
  }

  lemma Seven(parts: seq<seq<Byte>>)
    requires |parts| == 7
    ensures Concatenate(parts) ==
            parts[0] + parts[1] + parts[2] + parts[3] + parts[4] + parts[5] + parts[6]
  {
    ConcatenateSplits(parts, 4);
    hide Concatenate;
    assert parts[..4] == [parts[0], parts[1], parts[2], parts[3]];
    assert parts[4..] == [parts[4], parts[5], parts[6]];
    Four(parts[0], parts[1], parts[2], parts[3]);
    Three(parts[4], parts[5], parts[6]);
    FirstFour(parts[0] + parts[1] + parts[2] + parts[3], parts[4], parts[5], parts[6]);
  }

  lemma FirstFour<T>(a: seq<T>, b: seq<T>, c: seq<T>, d: seq<T>)
    ensures a + (b + c + d) == a + b + c + d
  {
  }
}
